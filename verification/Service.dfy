/** The reconnect machine of service.cpp: asynchronous services, the table from descriptors to services and the set
    of services the timer initializes again. */
module Service {

  const MAX_TIMEOUT := 10000

  datatype HostInfo = HostInfo(timeoutMs: int, forbidden: bool) {
    /** Configured so that a connection may be attempted. */
    predicate Usable() {
      0 < timeoutMs <= MAX_TIMEOUT && !forbidden
    }
  }

  /** What becomes of a send on the service's descriptor: it has no handler, the bytes are taken, or the handler's
      link breaks under it, which net_send_ser does not report. */
  datatype Outcome = Refused | Sent | Broke

  /** What can happen to the services. connect is what async_net_connect_ser returns, should it be called. */
  datatype Event =
    | Start(svc: AsyncService, connect: int, now: int)
    | Timer(svc: AsyncService, connect: int, now: int)
    | Up(fd: int)
    | Down(fd: int)
    | Send(svc: AsyncService, valid: bool, outcome: Outcome)

  // ----- all services at a moment, and what an event makes of them -----

  /** fd_service_map and reinit_set; the descriptors held; the services connecting, and since when; and the services
      to be kept up: initialized successfully, not forbidden and not shut down since. */
  datatype Snap = Snap(table: map<int, AsyncService?>, waiting: set<AsyncService>, fds: map<AsyncService, int>,
                       since: map<AsyncService, int>, kept: set<AsyncService>)

  ghost predicate Enabled(a: Snap, s: AsyncService) {
    s in a.fds && s !in a.since
  }

  ghost function Lookup(table: map<int, AsyncService?>, fd: int): AsyncService? {
    if fd in table then table[fd] else null
  }

  /** The service is connecting, and its time is not up. */
  ghost predicate InTime(a: Snap, s: AsyncService, now: int) {
    s in a.since && now - a.since[s] <= s.hostInfo.timeoutMs
  }

  ghost function Freed(a: Snap, s: AsyncService): map<int, AsyncService?> {
    if s in a.fds then a.table - {a.fds[s]} else a.table
  }

  ghost function AfterShut(a: Snap, s: AsyncService): Snap {
    Snap(Freed(a, s), a.waiting - {s}, a.fds - {s}, a.since - {s}, a.kept - {s})
  }

  /** A service without a descriptor tries to connect; an entry already there is not overwritten. */
  ghost function AfterConnect(a: Snap, s: AsyncService, connect: int, now: int): Snap {
    if connect < -1 then a.(waiting := a.waiting - {s}, kept := a.kept - {s})
    else
      var b := a.(waiting := a.waiting + {s}, kept := a.kept + {s});
      if connect == -1 then b
      else b.(fds := a.fds[s := connect], since := a.since[s := now],
              table := if connect in a.table then a.table else a.table[connect := s])
  }

  ghost function AfterInit(a: Snap, s: AsyncService, connect: int, now: int): Snap {
    if Enabled(a, s) || !s.hostInfo.Usable() then AfterShut(a, s)
    else if InTime(a, s, now) then a
    else AfterConnect(if s in a.since then AfterShut(a, s) else a, s, connect, now)
  }

  ghost function AfterReInit(a: Snap, s: AsyncService, connect: int, now: int): Snap {
    AfterInit(if s in a.since then a else AfterShut(a, s), s, connect, now)
  }

  ghost function AfterUp(a: Snap, fd: int): Snap {
    var s := Lookup(a.table, fd);
    if s == null then a.(table := a.table[fd := null]) else a.(since := a.since - {s}, waiting := a.waiting - {s})
  }

  ghost function AfterDown(a: Snap, fd: int): Snap {
    var s := Lookup(a.table, fd);
    if s == null then a.(table := a.table[fd := null]) else AfterShut(a, s).(waiting := a.waiting + {s}, kept := a.kept)
  }

  ghost function AfterSend(a: Snap, s: AsyncService, valid: bool, outcome: Outcome): Snap {
    if !valid || outcome == Sent then a
    else if outcome == Refused then AfterShut(a, s).(waiting := a.waiting + {s}, kept := a.kept)
    else if s in a.fds then AfterDown(a, a.fds[s]) else a
  }

  ghost function Next(a: Snap, e: Event): Snap {
    match e
    case Start(s, connect, now) => AfterInit(a, s, connect, now)
    case Timer(s, connect, now) => AfterReInit(a, s, connect, now)
    case Up(fd) => AfterUp(a, fd)
    case Down(fd) => AfterDown(a, fd)
    case Send(s, valid, outcome) => AfterSend(a, s, valid, outcome)
  }

  /** What is promised of the environment: the timer works on its set; a new descriptor is none by which a service
      can be found, as its link would still be open; and only a service with a descriptor has its bytes taken. */
  ghost predicate Possible(a: Snap, e: Event) {
    match e
    case Start(s, connect, _) => Lookup(a.table, connect) in {null, s}
    case Timer(s, connect, _) => s in a.waiting && Lookup(a.table, connect) in {null, s}
    case Send(s, _, outcome) => outcome == Refused || s in a.fds
    case _ => true
  }

  /** An entry without a service. */
  ghost predicate HasStale(a: Snap) {
    exists f :: f in a.table && a.table[f] == null
  }

  /** The counting loop of SetServiceConnected dereferences the service of every entry. */
  ghost predicate Crashes(a: Snap, e: Event) {
    e.Up? && HasStale(a)
  }

  /** A link event for a descriptor by which no service is found. */
  ghost predicate Foreign(a: Snap, e: Event) {
    (e.Up? || e.Down?) && Lookup(a.table, e.fd) == null
  }

  /** An initialization of its own fails: it was enabled already, or the attempt to connect was refused for good. */
  ghost predicate GivesUp(a: Snap, e: Event, s: AsyncService) {
    || (e.Start? && e.svc == s && (Enabled(a, s) || (e.connect < -1 && !InTime(a, s, e.now))))
    || (e.Timer? && e.svc == s && e.connect < -1 && !InTime(a, s, e.now))
  }

  /** True after every event: an entry leads to the service that holds its descriptor, if to any; a service to be kept
      up is enabled or the timer has it, not both; and only such a service holds a descriptor. */
  ghost predicate Fine(a: Snap) {
    && (forall f :: f in a.table && a.table[f] != null ==> a.table[f] in a.fds && a.fds[a.table[f]] == f)
    && (forall s :: s in a.fds ==> a.fds[s] >= 0 && s in a.kept)
    && (forall s :: s in a.since ==> s in a.fds)
    && (forall s :: s in a.kept ==> s.hostInfo.Usable() && (Enabled(a, s) <==> s !in a.waiting))
  }

  /** No entry is without a service, and every descriptor held leads to its holder. */
  ghost predicate Clean(a: Snap) {
    !HasStale(a) && forall s :: s in a.fds ==> a.fds[s] in a.table && a.table[a.fds[s]] == s
  }

  // ----- one event -----

  lemma ShutFine(a: Snap, s: AsyncService)
    requires Fine(a)
    ensures Fine(AfterShut(a, s)) && (Clean(a) ==> Clean(AfterShut(a, s)))
  {
  }

  lemma ConnectFine(a: Snap, s: AsyncService, connect: int, now: int)
    requires Fine(a) && s !in a.fds && s.hostInfo.Usable()
    ensures Fine(AfterConnect(a, s, connect, now))
    ensures Clean(a) && Lookup(a.table, connect) == null ==> Clean(AfterConnect(a, s, connect, now))
  {
  }

  lemma InitFine(a: Snap, s: AsyncService, connect: int, now: int)
    requires Fine(a)
    ensures Fine(AfterInit(a, s, connect, now))
    ensures Clean(a) && Lookup(a.table, connect) in {null, s} ==> Clean(AfterInit(a, s, connect, now))
  {
    ShutFine(a, s);
    var b := if s in a.since then AfterShut(a, s) else a;
    if !Enabled(a, s) && s.hostInfo.Usable() && !InTime(a, s, now) {
      assert Clean(a) && Lookup(a.table, connect) in {null, s} ==> Lookup(b.table, connect) == null;
      ConnectFine(b, s, connect, now);
    }
  }

  lemma LinkFine(a: Snap, fd: int)
    requires Fine(a)
    ensures Fine(AfterUp(a, fd)) && Fine(AfterDown(a, fd))
    ensures Clean(a) ==> (Clean(AfterUp(a, fd)) <==> Lookup(a.table, fd) != null)
    ensures Clean(a) ==> (Clean(AfterDown(a, fd)) <==> Lookup(a.table, fd) != null)
  {
    var s := Lookup(a.table, fd);
    if s == null {
      assert AfterUp(a, fd).table[fd] == null;
    } else {
      ShutFine(a, s);
    }
  }

  /** Whatever happens, no service to be kept up gets lost between the table and the timer; and the table becomes
      unclean exactly by a link event for a descriptor no service has. */
  lemma NextFine(a: Snap, e: Event)
    requires Fine(a) && Possible(a, e)
    ensures Fine(Next(a, e))
    ensures Clean(a) ==> (Clean(Next(a, e)) <==> !Foreign(a, e))
  {
    hide Fine, Clean, AfterInit, AfterUp, AfterDown;
    match e
    case Start(s, connect, now) => InitFine(a, s, connect, now);
    case Timer(s, connect, now) =>
      var b := if s in a.since then a else AfterShut(a, s);
      ShutFine(a, s);
      InitFine(b, s, connect, now);
    case Up(fd) => LinkFine(a, fd);
    case Down(fd) => LinkFine(a, fd);
    case Send(s, valid, outcome) => SendFine(a, s, valid, outcome);
  }

  lemma SendFine(a: Snap, s: AsyncService, valid: bool, outcome: Outcome)
    requires Fine(a) && (outcome == Refused || s in a.fds)
    ensures Fine(AfterSend(a, s, valid, outcome)) && (Clean(a) ==> Clean(AfterSend(a, s, valid, outcome)))
  {
    ShutFine(a, s);
    if s in a.fds {
      LinkFine(a, a.fds[s]);
    }
  }

  lemma KeptUnless(a: Snap, e: Event, s: AsyncService)
    requires Fine(a) && s in a.kept
    ensures s !in Next(a, e).kept <==> GivesUp(a, e, s)
  {
  }

  /** A service to be kept up is afterwards neither enabled nor in the timer's set exactly when an initialization of its
      own fails. */
  lemma GivesUpExactly(a: Snap, e: Event, s: AsyncService)
    requires Fine(a) && Possible(a, e) && s in a.kept
    ensures var b := Next(a, e); !Enabled(b, s) && s !in b.waiting <==> GivesUp(a, e, s)
    ensures s !in Next(a, e).kept <==> GivesUp(a, e, s)
  {
    KeptUnless(a, e, s);
    NextFine(a, e);
    FineSays(Next(a, e));
    hide Fine, Possible, Next;
    if GivesUp(a, e, s) {
      GivenUpIsOut(a, e, s);
    }
  }

  lemma GivenUpIsOut(a: Snap, e: Event, s: AsyncService)
    requires Fine(a) && s in a.kept && GivesUp(a, e, s)
    ensures !Enabled(Next(a, e), s) && s !in Next(a, e).waiting
  {
  }

  // ----- whole runs -----

  /** The services after these events. */
  ghost function After(a: Snap, events: seq<Event>): Snap {
    if events == [] then a else Next(After(a, events[..|events| - 1]), events[|events| - 1])
  }

  /** Every event is possible when it comes, and none crashes. */
  ghost predicate Runs(a: Snap, events: seq<Event>) {
    forall k :: 0 <= k < |events| ==>
      Possible(After(a, events[..k]), events[k]) && !Crashes(After(a, events[..k]), events[k])
  }

  lemma AfterStep(a: Snap, events: seq<Event>, k: nat)
    requires k < |events|
    ensures After(a, events[..k + 1]) == Next(After(a, events[..k]), events[k])
  {
    assert events[..k + 1][..k] == events[..k];
  }

  /** In every state of every run each service to be kept up is enabled, or else the timer has it. */
  lemma {:induction false} NoneLost(a: Snap, events: seq<Event>, k: nat)
    requires Fine(a) && Runs(a, events) && k <= |events|
    ensures var b := After(a, events[..k]); Fine(b) && forall s :: s in b.kept ==> (Enabled(b, s) <==> s !in b.waiting)
  {
    if k > 0 {
      hide Fine, Next, Possible, Crashes;
      NoneLost(a, events, k - 1);
      AfterStep(a, events, k - 1);
      NextFine(After(a, events[..k - 1]), events[k - 1]);
      FineSays(After(a, events[..k]));
    }
  }

  lemma FineSays(a: Snap)
    requires Fine(a)
    ensures forall s :: s in a.kept ==> (Enabled(a, s) <==> s !in a.waiting)
  {
  }

  lemma CleanStep(a: Snap, events: seq<Event>, k: nat)
    requires Fine(a) && Runs(a, events) && k < |events| && Clean(After(a, events[..k]))
    ensures Clean(After(a, events[..k + 1])) <==> !Foreign(After(a, events[..k]), events[k])
  {
    hide Fine, Clean, Next, Foreign, Crashes;
    NoneLost(a, events, k);
    AfterStep(a, events, k);
    NextFine(After(a, events[..k]), events[k]);
  }

  lemma {:induction false} AllClean(a: Snap, events: seq<Event>, k: nat)
    requires Fine(a) && Clean(a) && Runs(a, events) && k <= |events|
    requires forall j :: 0 <= j < |events| ==> !Foreign(After(a, events[..j]), events[j])
    ensures Clean(After(a, events[..k]))
  {
    if k > 0 {
      hide Fine, Clean, Next, Foreign, Crashes, Possible;
      AllClean(a, events, k - 1);
      CleanStep(a, events, k - 1);
    }
  }

  /** A run from a clean table stays clean throughout, so that no link event can crash it, if and only if no link event
      comes for a descriptor by which no service is found. */
  lemma StaysClean(a: Snap, events: seq<Event>)
    requires Fine(a) && Clean(a) && Runs(a, events)
    ensures (forall k :: 0 <= k <= |events| ==> Clean(After(a, events[..k])))
            <==> forall k :: 0 <= k < |events| ==> !Foreign(After(a, events[..k]), events[k])
    ensures Clean(After(a, events)) ==> forall e :: !Crashes(After(a, events), e)
  {
    assert Clean(After(a, events)) ==> !HasStale(After(a, events));
    hide Fine, Clean, Next, Possible, Foreign, After, HasStale, Runs;
    if forall k :: 0 <= k < |events| ==> !Foreign(After(a, events[..k]), events[k]) {
      forall k | 0 <= k <= |events| ensures Clean(After(a, events[..k])) {
        AllClean(a, events, k);
      }
    }
    if forall k :: 0 <= k <= |events| ==> Clean(After(a, events[..k])) {
      forall k | 0 <= k < |events| ensures !Foreign(After(a, events[..k]), events[k]) {
        CleanStep(a, events, k);
      }
    }
  }

  /** A run that crashes: Send is called for a service that is connecting, so that shutting it down after its time is up
      leaves the link open until the bytes are sent; the link comes up all the same; the next link event crashes. */
  lemma LateLinkCrashes(s: AsyncService, fd: nat, other: int)
    requires s.hostInfo.Usable()
    ensures var events := [Start(s, fd, 0), Send(s, true, Sent), Timer(s, -1, s.hostInfo.timeoutMs + 1), Up(fd)];
            var a := Snap(map[], {}, map[], map[], {});
            Fine(a) && Clean(a) && Runs(a, events) && Crashes(After(a, events), Up(other))
  {
    var a := Snap(map[], {}, map[], map[], {});
    var e0, e1 := Start(s, fd, 0), Send(s, true, Sent);
    var e2, e3: Event := Timer(s, -1, s.hostInfo.timeoutMs + 1), Up(fd);
    var events := [e0, e1, e2, e3];
    var b := Snap(map[fd := s], {s}, map[s := fd], map[s := 0], {s});
    var c := Snap(map[], {s}, map[], map[], {s});
    assert Fine(a) && Clean(a);
    hide Fine, Clean;
    assert events[..0] == [] && events[..1][..0] == [] && events[..2][..1] == events[..1]
       && events[..3][..2] == events[..2];
    assert events[..4] == events && events[..3] == events[..|events| - 1];
    assert Next(a, e0) == b && Next(b, e1) == b;
    assert AfterShut(b, s) == Snap(map[], {}, map[], map[], {});
    assert Next(b, e2) == c;
    assert Next(c, e3) == c.(table := map[fd := null]) && Next(c, e3).table[fd] == null;
    AfterStep(a, events, 0);
    AfterStep(a, events, 1);
    AfterStep(a, events, 2);
    AfterStep(a, events, 3);
  }

  /** A shorter one: a connection made in blocking mode reports itself by link_up_ser, for a descriptor no service
      has; the next link event crashes. */
  lemma BlockingLinkCrashes(a: Snap, fd: nat, other: int)
    requires Fine(a) && Clean(a) && Lookup(a.table, fd) == null
    ensures Runs(a, [Up(fd)]) && Crashes(After(a, [Up(fd)]), Up(other))
  {
    var events: seq<Event> := [Up(fd)];
    assert events[..0] == [] && !HasStale(a);
    assert AfterUp(a, fd).table[fd] == null;
  }

  /** In every run, whenever a service has come to be kept up, it is given up later only by an initialization of its own
      that fails. */
  lemma {:induction false} GivenUpByItsOwn(a: Snap, events: seq<Event>, i: nat, j: nat, s: AsyncService)
    requires Fine(a) && Runs(a, events) && i <= j <= |events|
    requires s in After(a, events[..i]).kept && s !in After(a, events[..j]).kept
    ensures exists k :: i <= k < j && s in After(a, events[..k]).kept && GivesUp(After(a, events[..k]), events[k], s)
    decreases j
  {
    hide Fine, Next, GivesUp, Runs;
    if s in After(a, events[..j - 1]).kept {
      NoneLost(a, events, j - 1);
      AfterStep(a, events, j - 1);
      KeptUnless(After(a, events[..j - 1]), events[j - 1], s);
    } else {
      GivenUpByItsOwn(a, events, i, j - 1, s);
    }
  }

  // ----- the services themselves -----

  ghost function Fds(services: set<AsyncService>): (m: map<AsyncService, int>)
    reads services
    ensures m.Keys <= services
  {
    map s | s in services && s.fd >= 0 :: s.fd
  }

  lemma HeldFd(s: AsyncService)
    ensures s in s.reg.services ==> (s in Fds(s.reg.services) <==> s.fd >= 0)
                                    && (s in Since(s.reg.services) <==> s.connecting)
                                    && (s in Supervised(s.reg.services) <==> s.supervised)
    ensures s in Fds(s.reg.services) ==> Fds(s.reg.services)[s] == s.fd
    ensures s in Since(s.reg.services) ==> Since(s.reg.services)[s] == s.connectTimeMs
  {
  }

  ghost function Since(services: set<AsyncService>): (m: map<AsyncService, int>)
    reads services
    ensures m.Keys <= services
  {
    map s | s in services && s.connecting :: s.connectTimeMs
  }

  ghost function Supervised(services: set<AsyncService>): (m: set<AsyncService>)
    reads services
    ensures m <= services
  {
    set s | s in services && s.supervised
  }

  /** fd_service_map and reinit_set, which all services share. */
  class Registry {
    var fdServiceMap: map<int, AsyncService?>
    var reinitSet: set<AsyncService>
    ghost var services: set<AsyncService>

    constructor ()
      ensures Valid() && Clean(Abs()) && services == {} && Abs() == Snap(map[], {}, map[], map[], {})
    {
      services, fdServiceMap, reinitSet := {}, map[], {};
    }

    ghost function Abs(): Snap
      reads this, services
    {
      Snap(fdServiceMap, reinitSet, Fds(services), Since(services), Supervised(services))
    }

    ghost predicate Known()
      reads this, services
    {
      && reinitSet <= services
      && (forall f :: f in fdServiceMap && fdServiceMap[f] != null ==> fdServiceMap[f] in services)
      && forall s :: s in services ==> s.reg == this
    }

    ghost predicate Valid()
      reads this, services
    {
      Known() && Fine(Abs()) && forall s :: s in services ==> s.FlagsOk()
    }

    /** SetServiceConnected: it crashes on an entry without a service; for a descriptor no service has, operator[]
        leaves such an entry behind. */
    method SetServiceConnected(fd: int) returns (crashed: bool)
      requires Valid()
      modifies this`fdServiceMap, this`reinitSet
      modifies if Lookup(fdServiceMap, fd) != null then {Lookup(fdServiceMap, fd)} else {}
      ensures Valid() && (crashed <==> old(HasStale(Abs())))
      ensures Abs() == if crashed then old(Abs()) else AfterUp(old(Abs()), fd)
      ensures var s := old(Lookup(fdServiceMap, fd));
              && (!crashed && s != null ==>
                    s.enabled && !s.connecting && s.fd == fd && reinitSet == old(reinitSet) - {s}
                    && fdServiceMap == old(fdServiceMap))
              && (!crashed && s == null ==>
                    reinitSet == old(reinitSet) && fdServiceMap == old(fdServiceMap)[fd := null])
    {
      hide Fine;
      crashed := CountEnabled();
      if crashed {
        return;
      }
      LinkFine(Abs(), fd);
      var svc := null;
      if fd in fdServiceMap {
        svc := fdServiceMap[fd];
      } else {
        fdServiceMap := fdServiceMap[fd := null];
      }
      if svc != null {
        svc.LinkUp();
      }
    }

    /** The counting loop, for a log line: it dereferences the service of every entry. */
    method CountEnabled() returns (crashed: bool)
      ensures crashed <==> exists f :: f in fdServiceMap && fdServiceMap[f] == null
    {
      var enabledCount := 0;
      var left := fdServiceMap.Keys;
      while exists f :: f in left
        invariant left <= fdServiceMap.Keys
        invariant forall f :: f in fdServiceMap && f !in left ==> fdServiceMap[f] != null
        decreases |left|
      {
        var f :| f in left;
        if fdServiceMap[f] == null {
          return true;
        }
        if fdServiceMap[f].enabled {
          enabledCount := enabledCount + 1;
        }
        left := left - {f};
      }
      return false;
    }

    /** SetServiceDisconnected, which leaves such an entry too. */
    method SetServiceDisconnected(fd: int)
      requires Valid()
      modifies this`fdServiceMap, this`reinitSet
      modifies if Lookup(fdServiceMap, fd) != null then {Lookup(fdServiceMap, fd)} else {}
      ensures Valid() && Abs() == AfterDown(old(Abs()), fd)
      ensures var s := old(Lookup(fdServiceMap, fd));
              && (s != null ==> !s.enabled && !s.connecting && s.fd == -1 && reinitSet == old(reinitSet) + {s}
                                && fdServiceMap == old(fdServiceMap) - {fd})
              && (s == null ==> reinitSet == old(reinitSet) && fdServiceMap == old(fdServiceMap)[fd := null])
    {
      hide Fine;
      LinkFine(Abs(), fd);
      var svc := null;
      if fd in fdServiceMap {
        svc := fdServiceMap[fd];
      } else {
        fdServiceMap := fdServiceMap[fd := null];
      }
      if svc != null {
        svc.LinkDown();
      }
    }
  }

  class AsyncService {
    const hostInfo: HostInfo
    const reg: Registry
    var enabled: bool
    var fd: int
    var connectTimeMs: int
    var connecting: bool
    /** Initialized successfully, not forbidden and not shut down since: to be kept up. */
    ghost var supervised: bool

    constructor (hi: HostInfo, reg: Registry)
      requires reg.Valid()
      modifies reg`services
      ensures reg.Valid() && reg.services == old(reg.services) + {this} && this.reg == reg && hostInfo == hi
      ensures reg.Abs() == old(reg.Abs()) && !enabled
    {
      hide Fine;
      hostInfo, this.reg := hi, reg;
      enabled, fd, connectTimeMs, connecting, supervised := false, -1, 0, false, false;
      new;
      reg.services := reg.services + {this};
      assert Fds(reg.services) == old(Fds(reg.services)) && Since(reg.services) == old(Since(reg.services));
      assert Supervised(reg.services) == old(Supervised(reg.services));
    }

    ghost predicate FlagsOk()
      reads this
    {
      (fd >= 0 <==> enabled || connecting) && !(enabled && connecting)
    }

    /** Element::Disable, as far as this service is concerned. */
    method Disable()
      requires this in reg.services
      modifies this`enabled
      ensures !enabled && reg.Abs() == old(reg.Abs())
    {
      enabled := false;
      assert Fds(reg.services) == old(Fds(reg.services));
      assert Since(reg.services) == old(Since(reg.services));
      assert Supervised(reg.services) == old(Supervised(reg.services));
    }

    /** The assignments Shut and LinkDown have in common. */
    method Release()
      requires this in reg.services
      modifies this`enabled, this`fd, this`connecting
      ensures FlagsOk() && !enabled && fd == -1 && supervised == old(supervised)
      ensures Fds(reg.services) == old(Fds(reg.services)) - {this}
      ensures Since(reg.services) == old(Since(reg.services)) - {this}
      ensures Supervised(reg.services) == old(Supervised(reg.services))
    {
      enabled := false;
      connecting := false;
      fd := -1;
    }

    /** A new descriptor. */
    method Hold(connect: int, now: int)
      requires this in reg.services && connect >= 0 && !enabled
      modifies this`fd, this`connecting, this`connectTimeMs
      ensures FlagsOk() && fd == connect && connecting && connectTimeMs == now
      ensures Fds(reg.services) == old(Fds(reg.services))[this := connect]
      ensures Since(reg.services) == old(Since(reg.services))[this := now]
      ensures Supervised(reg.services) == old(Supervised(reg.services))
    {
      fd := connect;
      connectTimeMs := now;
      connecting := true;
    }

    /** For the record: the service is to be kept up, or no longer. */
    ghost method Supervise(keep: bool)
      requires this in reg.services
      modifies this`supervised
      ensures supervised == keep
      ensures Fds(reg.services) == old(Fds(reg.services)) && Since(reg.services) == old(Since(reg.services))
      ensures Supervised(reg.services)
              == if keep then old(Supervised(reg.services)) + {this} else old(Supervised(reg.services)) - {this}
    {
      supervised := keep;
    }

    /** Shuts the service down for good. */
    method Shut()
      requires this in reg.services && reg.Known()
      modifies this, reg`fdServiceMap, reg`reinitSet
      ensures reg.Known() && FlagsOk() && !enabled && reg.Abs() == AfterShut(old(reg.Abs()), this)
      ensures !connecting && fd == -1 && reg.reinitSet == old(reg.reinitSet) - {this}
      ensures reg.fdServiceMap == old(if fd >= 0 then reg.fdServiceMap - {fd} else reg.fdServiceMap)
    {
      HeldFd(this);
      hide Fds, Since, Supervised;
      if fd >= 0 {
        reg.fdServiceMap := reg.fdServiceMap - {fd};
      }
      Release();
      reg.reinitSet := reg.reinitSet - {this};
      Supervise(false);
    }

    /** An attempt to connect goes on untouched. */
    ghost predicate Unmoved(fd0: int, since: int, waiting: set<AsyncService>)
      reads this, reg
    {
      connecting && fd == fd0 && connectTimeMs == since && reg.reinitSet == waiting
    }

    /** A new attempt to connect: it is in progress on its descriptor, or failed for now, or for good. */
    ghost predicate Attempted(connect: int, now: int, waiting: set<AsyncService>)
      reads this, reg
    {
      && fd == connect && connecting == (connect >= 0) && (connecting ==> connectTimeMs == now)
      && reg.reinitSet == if connect >= -1 then waiting + {this} else waiting - {this}
    }

    /** connect is what async_net_connect_ser returns, should it be called: -1, a smaller number for bad parameters,
        or a descriptor. */
    method Init(connect: int, now: int) returns (ok: bool)
      requires this in reg.services && reg.Valid()
      modifies this, reg`fdServiceMap, reg`reinitSet
      ensures reg.Valid() && !enabled && reg.Abs() == AfterInit(old(reg.Abs()), this, connect, now)
      ensures ok <==> !old(enabled) && 0 < hostInfo.timeoutMs <= MAX_TIMEOUT
                      && (hostInfo.forbidden || old(InTime(reg.Abs(), this, now)) || connect >= -1)
      ensures old(enabled) || !(0 < hostInfo.timeoutMs <= 10000) || hostInfo.forbidden ==>
                !connecting && fd == -1 && reg.reinitSet == old(reg.reinitSet) - {this}
      ensures !old(enabled) && 0 < hostInfo.timeoutMs <= 10000 && !hostInfo.forbidden ==>
                if old(connecting) && now - old(connectTimeMs) <= hostInfo.timeoutMs
                then Unmoved(old(fd), old(connectTimeMs), old(reg.reinitSet))
                else Attempted(connect, now, old(reg.reinitSet))
    {
      hide Fine;
      InitFine(reg.Abs(), this, connect, now);
      if enabled || hostInfo.timeoutMs <= 0 || hostInfo.timeoutMs > MAX_TIMEOUT {
        Shut();
        return false;
      }
      if hostInfo.forbidden {
        Shut();
        return true;
      }
      if connecting {
        if now - connectTimeMs <= hostInfo.timeoutMs {
          return true;
        }
        Shut();
      }
      ok := Connect(connect, now);
    }

    /** The rest of Init: the result of async_net_connect_ser is taken in. */
    method Connect(connect: int, now: int) returns (ok: bool)
      requires this in reg.services && reg.Known() && fd < 0 && !enabled && !connecting
      modifies this, reg`fdServiceMap, reg`reinitSet
      ensures reg.Known() && FlagsOk() && !enabled && ok == (connect >= -1)
      ensures reg.Abs() == AfterConnect(old(reg.Abs()), this, connect, now)
      ensures Attempted(connect, now, old(reg.reinitSet))
    {
      hide Fds, Since, Supervised;
      if connect < 0 {
        NewFd(connect);
        Supervise(connect == -1);
        if connect == -1 {
          reg.reinitSet := reg.reinitSet + {this};
          return true;
        }
        reg.reinitSet := reg.reinitSet - {this};
        return false;
      }
      Hold(connect, now);
      reg.reinitSet := reg.reinitSet + {this};
      if fd !in reg.fdServiceMap {
        reg.fdServiceMap := reg.fdServiceMap[fd := this];
      }
      Supervise(true);
      return true;
    }

    /** No descriptor, but a result kept in its place. */
    method NewFd(connect: int)
      requires this in reg.services && connect < 0 && fd < 0 && !enabled && !connecting
      modifies this`fd, this`connecting
      ensures FlagsOk() && fd == connect && !connecting
      ensures Fds(reg.services) == old(Fds(reg.services)) && Since(reg.services) == old(Since(reg.services))
      ensures Supervised(reg.services) == old(Supervised(reg.services))
    {
      fd := connect;
      connecting := false;
      assert Fds(reg.services) == old(Fds(reg.services));
      assert Since(reg.services) == old(Since(reg.services));
    }

    /** Called when the connection is there, for the service found by its descriptor. */
    method LinkUp()
      requires this in reg.services && reg.Known() && fd >= 0
      modifies this, reg`reinitSet
      ensures reg.Known() && FlagsOk() && enabled
      ensures var a := old(reg.Abs()); reg.Abs() == a.(since := a.since - {this}, waiting := a.waiting - {this})
      ensures !connecting && fd == old(fd) && reg.reinitSet == old(reg.reinitSet) - {this}
    {
      connecting := false;
      enabled := true;
      reg.reinitSet := reg.reinitSet - {this};
    }

    /** What the timer does: an attempt in progress goes on until it times out, otherwise it starts afresh. */
    method ReInit(connect: int, now: int) returns (ok: bool)
      requires this in reg.services && reg.Valid()
      modifies this, reg`fdServiceMap, reg`reinitSet
      ensures reg.Valid() && !enabled && reg.Abs() == AfterReInit(old(reg.Abs()), this, connect, now)
      ensures ok <==> 0 < hostInfo.timeoutMs <= MAX_TIMEOUT
                      && (hostInfo.forbidden || old(InTime(reg.Abs(), this, now)) || connect >= -1)
      ensures !(0 < hostInfo.timeoutMs <= 10000) || hostInfo.forbidden ==>
                !connecting && fd == -1 && reg.reinitSet == old(reg.reinitSet) - {this}
      ensures 0 < hostInfo.timeoutMs <= 10000 && !hostInfo.forbidden ==>
                if old(connecting) && now - old(connectTimeMs) <= hostInfo.timeoutMs
                then Unmoved(old(fd), old(connectTimeMs), old(reg.reinitSet))
                else Attempted(connect, now, old(reg.reinitSet))
    {
      hide Fine;
      ShutFine(reg.Abs(), this);
      HeldFd(this);
      hide Fds, Since, Supervised;
      Disable();
      if !connecting {
        Shut();
      }
      ok := Init(connect, now);
    }

    /** The connection is gone; the timer will set it up again. */
    method LinkDown()
      requires this in reg.services && reg.Known()
      modifies this, reg`fdServiceMap, reg`reinitSet
      ensures reg.Known() && FlagsOk() && !enabled
      ensures var a := old(reg.Abs()); reg.Abs() == AfterShut(a, this).(waiting := a.waiting + {this}, kept := a.kept)
      ensures !connecting && fd == -1 && reg.reinitSet == old(reg.reinitSet) + {this}
      ensures reg.fdServiceMap == old(if fd >= 0 then reg.fdServiceMap - {fd} else reg.fdServiceMap)
    {
      HeldFd(this);
      hide Fds, Since, Supervised;
      if fd >= 0 {
        reg.fdServiceMap := reg.fdServiceMap - {fd};
      }
      Release();
      reg.reinitSet := reg.reinitSet + {this};
    }

    /** Shut and SetToReInit, on a refused send. */
    method ShutForTimer()
      requires this in reg.services && reg.Known()
      modifies this, reg`fdServiceMap, reg`reinitSet
      ensures reg.Known() && FlagsOk() && !enabled
      ensures var a := old(reg.Abs()); reg.Abs() == AfterShut(a, this).(waiting := a.waiting + {this}, kept := a.kept)
      ensures !connecting && fd == -1 && reg.reinitSet == old(reg.reinitSet) + {this}
      ensures reg.fdServiceMap == old(if fd >= 0 then reg.fdServiceMap - {fd} else reg.fdServiceMap)
    {
      HeldFd(this);
      hide Fds, Since, Supervised;
      ghost var a, keep := reg.Abs(), supervised;
      Shut();
      reg.reinitSet := reg.reinitSet + {this};
      Supervise(keep);
      assert reg.Abs().kept == a.kept && reg.Abs().waiting == a.waiting + {this};
    }

    /** Send. A refused send gives the service to the timer; so does a broken one, if the service is found by its
        descriptor, and returns true all the same. */
    method Send(valid: bool, outcome: Outcome) returns (ok: bool)
      requires this in reg.services && reg.Valid() && (outcome != Refused ==> fd >= 0)
      modifies this, reg`fdServiceMap, reg`reinitSet
      modifies if Lookup(reg.fdServiceMap, fd) != null then {Lookup(reg.fdServiceMap, fd)} else {}
      ensures reg.Valid() && reg.Abs() == AfterSend(old(reg.Abs()), this, valid, outcome)
      ensures ok == (valid && outcome != Refused)
      ensures !valid || outcome == Sent ==> fd == old(fd) && connecting == old(connecting) && enabled == old(enabled)
                                            && reg.reinitSet == old(reg.reinitSet)
      ensures valid && (outcome == Refused || (outcome == Broke && old(Lookup(reg.fdServiceMap, fd)) == this)) ==>
                !enabled && !connecting && fd == -1 && reg.reinitSet == old(reg.reinitSet) + {this}
    {
      hide Fine;
      SendFine(reg.Abs(), this, valid, outcome);
      HeldFd(this);
      hide Fds, Since, Supervised;
      if !valid {
        return false;
      }
      if outcome == Refused {
        ShutForTimer();
        return false;
      }
      if outcome == Broke {
        reg.SetServiceDisconnected(fd);
      }
      return true;
    }
  }

  predicate CanHappen(reg: Registry, e: Event)
    reads reg, match e { case Send(s, _, _) => {s} case _ => {} }
  {
    match e
    case Start(s, connect, _) => connect !in reg.fdServiceMap || reg.fdServiceMap[connect] in {null, s}
    case Timer(s, connect, _) =>
      s in reg.reinitSet && (connect !in reg.fdServiceMap || reg.fdServiceMap[connect] in {null, s})
    case Send(s, _, outcome) => outcome == Refused || s.fd >= 0
    case _ => true
  }

  predicate OfServices(e: Event, services: set<AsyncService>) {
    e.Start? || e.Timer? || e.Send? ==> e.svc in services
  }

  /** One event. */
  method Handle(reg: Registry, e: Event) returns (crashed: bool)
    requires reg.Valid() && OfServices(e, reg.services) && CanHappen(reg, e)
    modifies reg`fdServiceMap, reg`reinitSet, reg.services
    ensures reg.Valid() && Possible(old(reg.Abs()), e) && (crashed <==> Crashes(old(reg.Abs()), e))
    ensures reg.Abs() == if crashed then old(reg.Abs()) else Next(old(reg.Abs()), e)
  {
    hide Fine, AfterInit, AfterReInit, AfterUp, AfterDown, AfterSend, HasStale;
    crashed := false;
    match e
    case Start(s, connect, now) => var _ := s.Init(connect, now);
    case Timer(s, connect, now) => var _ := s.ReInit(connect, now);
    case Up(fd) => crashed := reg.SetServiceConnected(fd);
    case Down(fd) => reg.SetServiceDisconnected(fd);
    case Send(s, valid, outcome) => var _ := s.Send(valid, outcome);
  }

  /** Whole runs: link events may come for any descriptor. The run ends at a crash, or at an event the environment is
      promised not to bring. */
  method Drive(reg: Registry, events: seq<Event>) returns (n: nat, crashed: bool)
    requires reg.Valid() && forall e :: e in events ==> OfServices(e, reg.services)
    modifies reg`fdServiceMap, reg`reinitSet, reg.services
    ensures reg.Valid() && n <= |events| && Runs(old(reg.Abs()), events[..n])
    ensures reg.Abs() == After(old(reg.Abs()), events[..n])
    ensures crashed ==> n < |events| && Crashes(reg.Abs(), events[n])
    ensures !crashed && n < |events| ==> !Possible(reg.Abs(), events[n])
  {
    hide Fine, Next, HasStale, OfServices;
    n, crashed := 0, false;
    while n < |events| && CanHappen(reg, events[n])
      invariant reg.Valid() && n <= |events| && Runs(old(reg.Abs()), events[..n])
      invariant reg.Abs() == After(old(reg.Abs()), events[..n])
    {
      assert events[n] in events;
      crashed := Handle(reg, events[n]);
      if crashed {
        return;
      }
      RunsOn(old(reg.Abs()), events, n);
      n := n + 1;
    }
  }

  lemma RunsOn(a: Snap, events: seq<Event>, n: nat)
    requires n < |events| && Runs(a, events[..n])
    requires Possible(After(a, events[..n]), events[n]) && !Crashes(After(a, events[..n]), events[n])
    ensures Runs(a, events[..n + 1]) && After(a, events[..n + 1]) == Next(After(a, events[..n]), events[n])
  {
    hide Possible, Crashes, Next;
    AfterStep(a, events, n);
    forall k | 0 <= k < n + 1
      ensures events[..n + 1][..k] == events[..k] && (k < n ==> events[..n][..k] == events[..k])
    {
    }
  }
}
