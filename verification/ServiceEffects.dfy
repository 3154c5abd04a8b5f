/** Which services an event enables and disables, whose attempt to connect it begins and ends, and what it puts into
    and takes out of the timer's set, read off the state before it. */
module ServiceEffects {
  import opened Service

  ghost predicate OwnInit(e: Event, s: AsyncService) {
    (e.Start? || e.Timer?) && e.svc == s
  }

  /** The initialization is refused before any attempt: by the configuration, or because the service was enabled, which
      the timer's is not any more. */
  ghost predicate NoAttempt(a: Snap, e: Event, s: AsyncService) {
    || s.hostInfo.timeoutMs <= 0 || s.hostInfo.timeoutMs > 10000 || s.hostInfo.forbidden
    || (e.Start? && s in a.fds && s !in a.since)
  }

  /** An attempt goes on for timeoutMs milliseconds. */
  ghost predicate GoesOn(a: Snap, s: AsyncService, now: int) {
    s in a.since && now <= a.since[s] + s.hostInfo.timeoutMs
  }

  /** A new attempt to connect is made. */
  ghost predicate Attempts(a: Snap, e: Event, s: AsyncService) {
    OwnInit(e, s) && !NoAttempt(a, e, s) && !GoesOn(a, s, e.now)
  }

  /** The link of s is found broken. */
  ghost predicate Loses(a: Snap, e: Event, s: AsyncService) {
    || (e.Down? && e.fd in a.table && a.table[e.fd] == s)
    || (e.Send? && e.valid && e.outcome == Refused && e.svc == s)
    || (e.Send? && e.valid && e.outcome == Broke && e.svc in a.fds
        && a.fds[e.svc] in a.table && a.table[a.fds[e.svc]] == s)
  }

  ghost predicate LinksUp(a: Snap, e: Event, s: AsyncService) {
    e.Up? && e.fd in a.table && a.table[e.fd] == s
  }

  ghost predicate Same(a: Snap, b: Snap, s: AsyncService) {
    && (s in b.fds <==> s in a.fds) && (s in b.fds ==> b.fds[s] == a.fds[s])
    && (s in b.since <==> s in a.since) && (s in b.since ==> b.since[s] == a.since[s])
    && (s in b.waiting <==> s in a.waiting) && (s in b.kept <==> s in a.kept)
  }

  ghost predicate WithoutLink(b: Snap, s: AsyncService) {
    s !in b.fds && s !in b.since
  }

  // ----- what one event does to one service -----

  lemma InitOther(a: Snap, s: AsyncService, connect: int, now: int, t: AsyncService)
    requires t != s
    ensures Same(a, AfterInit(a, s, connect, now), t)
  {
  }

  lemma ShutOther(a: Snap, s: AsyncService, t: AsyncService)
    requires t != s
    ensures Same(a, AfterShut(a, s), t)
  {
  }

  /** An event changes the service it initializes, the one whose link it brings up and the one whose link it breaks; no
      other. */
  lemma OthersUntouched(a: Snap, e: Event, s: AsyncService)
    requires Fine(a) && Possible(a, e) && !OwnInit(e, s) && !LinksUp(a, e, s) && !Loses(a, e, s)
    ensures Same(a, Next(a, e), s)
  {
    hide AfterInit, Same, Possible, AfterShut;
    match e
    case Start(t, connect, now) => InitOther(a, t, connect, now, s);
    case Timer(t, connect, now) =>
      var b := if t in a.since then a else AfterShut(a, t);
      ShutOther(a, t, s);
      InitOther(b, t, connect, now, s);
      SameTwice(a, b, Next(a, e), s);
    case Up(fd) => UpOther(a, fd, s);
    case Down(fd) => DownOther(a, fd, s);
    case Send(t, valid, outcome) =>
      if valid && outcome == Broke && t in a.fds {
        DownOther(a, a.fds[t], s);
      } else {
        SendOther(a, t, valid, outcome, s);
      }
  }

  lemma SameTwice(a: Snap, b: Snap, c: Snap, s: AsyncService)
    requires Same(a, a, s) ==> Same(a, b, s) && Same(b, c, s)
    ensures Same(a, c, s)
  {
  }

  lemma UpOther(a: Snap, fd: int, s: AsyncService)
    requires !(fd in a.table && a.table[fd] == s)
    ensures Same(a, AfterUp(a, fd), s)
  {
  }

  lemma DownOther(a: Snap, fd: int, s: AsyncService)
    requires !(fd in a.table && a.table[fd] == s)
    ensures Same(a, AfterDown(a, fd), s)
  {
  }

  lemma SendOther(a: Snap, t: AsyncService, valid: bool, outcome: Outcome, s: AsyncService)
    requires !valid || outcome == Sent || (outcome == Refused && t != s) || (outcome == Broke && t !in a.fds)
    ensures Same(a, AfterSend(a, t, valid, outcome), s)
  {
  }

  /** The link of a service is there: it is enabled, on the descriptor it was found by, and the timer forgets it. */
  lemma Linked(a: Snap, e: Event, s: AsyncService)
    requires Fine(a) && LinksUp(a, e, s)
    ensures var b := Next(a, e); s in b.fds && b.fds[s] == a.fds[s] == e.fd && s !in b.since && s !in b.waiting
  {
  }

  /** A service that loses its link is disabled, holds no descriptor any more, and goes to the timer. */
  lemma Lost(a: Snap, e: Event, s: AsyncService)
    requires Fine(a) && Loses(a, e, s)
    ensures WithoutLink(Next(a, e), s) && s in Next(a, e).waiting && (s in Next(a, e).kept <==> s in a.kept)
  {
  }

  /** An initialization, by the user or by the timer: within timeoutMs an attempt goes on untouched, beyond it a new one
      is made, on the new descriptor and with the time of now. */
  lemma Initialized(a: Snap, e: Event, s: AsyncService)
    requires Fine(a) && OwnInit(e, s)
    ensures var b := Next(a, e);
            && (NoAttempt(a, e, s) ==> WithoutLink(b, s) && s !in b.waiting)
            && (!NoAttempt(a, e, s) && GoesOn(a, s, e.now) ==> b == a)
            && (Attempts(a, e, s) ==>
                  && (if e.connect >= 0 then s in b.fds && b.fds[s] == e.connect && s in b.since && b.since[s] == e.now
                      else WithoutLink(b, s))
                  && (s in b.waiting <==> e.connect >= -1))
  {
  }

  // ----- exactly when -----

  /** A service is enabled by the link event that finds it, and only by that; it is disabled when its link is lost and
      by any initialization of its own. */
  lemma EnabledExactly(a: Snap, e: Event, s: AsyncService)
    requires Fine(a) && Possible(a, e)
    ensures Enabled(Next(a, e), s)
            <==> LinksUp(a, e, s) || (Enabled(a, s) && !Loses(a, e, s) && !OwnInit(e, s))
    ensures Enabled(Next(a, e), s) ==> Next(a, e).fds[s] == a.fds[s]
  {
    hide Next, Fine, Possible;
    Cases(a, e, s);
  }

  /** The timer gets a service that lost its link or makes a new attempt to connect, unless that is refused for good; it
      gives up one whose link comes up, one that may make no attempt, and one refused for good. */
  lemma WaitingExactly(a: Snap, e: Event, s: AsyncService)
    requires Fine(a) && Possible(a, e)
    ensures s in Next(a, e).waiting <==>
            || Loses(a, e, s) || (Attempts(a, e, s) && e.connect >= -1)
            || (s in a.waiting && !LinksUp(a, e, s) && !(Attempts(a, e, s) && e.connect < -1)
                && !(OwnInit(e, s) && NoAttempt(a, e, s)))
  {
    hide Next, Fine, Possible;
    Cases(a, e, s);
  }

  /** A service is connecting, on descriptor f and since time t, when an attempt of its own just gave it f at t; and
      as long as its link neither comes up nor is lost and no initialization finds its time up. */
  lemma ConnectingExactly(a: Snap, e: Event, s: AsyncService, f: int, t: int)
    requires Fine(a) && Possible(a, e)
    ensures var b := Next(a, e);
            (s in b.since && s in b.fds && b.since[s] == t && b.fds[s] == f) <==>
            || (Attempts(a, e, s) && e.connect >= 0 && f == e.connect && t == e.now)
            || (s in a.since && s in a.fds && a.since[s] == t && a.fds[s] == f
                && !LinksUp(a, e, s) && !Loses(a, e, s)
                && (OwnInit(e, s) ==> !NoAttempt(a, e, s) && GoesOn(a, s, e.now)))
  {
    hide Next, Fine, Possible;
    Cases(a, e, s);
  }

  lemma Cases(a: Snap, e: Event, s: AsyncService)
    requires Fine(a) && Possible(a, e)
    ensures LinksUp(a, e, s) ==> var b := Next(a, e);
              s in b.fds && s in a.fds && b.fds[s] == a.fds[s] && s !in b.since && s !in b.waiting
    ensures Loses(a, e, s) ==> WithoutLink(Next(a, e), s) && s in Next(a, e).waiting
    ensures OwnInit(e, s) && NoAttempt(a, e, s) ==> WithoutLink(Next(a, e), s) && s !in Next(a, e).waiting
    ensures OwnInit(e, s) && !NoAttempt(a, e, s) && GoesOn(a, s, e.now) ==> Next(a, e) == a
    ensures Attempts(a, e, s) ==> var b := Next(a, e);
              && (if e.connect >= 0 then s in b.fds && b.fds[s] == e.connect && s in b.since && b.since[s] == e.now
                  else WithoutLink(b, s))
              && (s in b.waiting <==> e.connect >= -1)
    ensures !OwnInit(e, s) && !LinksUp(a, e, s) && !Loses(a, e, s) ==> Same(a, Next(a, e), s)
  {
    if LinksUp(a, e, s) {
      Linked(a, e, s);
    } else if Loses(a, e, s) {
      Lost(a, e, s);
    } else if OwnInit(e, s) {
      Initialized(a, e, s);
    } else {
      OthersUntouched(a, e, s);
    }
    hide Next, Possible, WithoutLink, Same, NoAttempt, GoesOn;
    assert LinksUp(a, e, s) ==> s in a.fds;
  }

  // ----- the table -----

  /** The service gives up the descriptor it holds. */
  ghost predicate Releases(a: Snap, e: Event, s: AsyncService) {
    s in a.fds && (Loses(a, e, s) || (OwnInit(e, s) && (NoAttempt(a, e, s) || !GoesOn(a, s, e.now))))
  }

  ghost predicate GivenUp(a: Snap, e: Event, f: int) {
    exists s :: s in a.fds && a.fds[s] == f && Releases(a, e, s)
  }

  /** A link event for f, or a broken send on it, finds no service. */
  ghost predicate Missed(a: Snap, e: Event, f: int) {
    && (f in a.table ==> a.table[f] == null)
    && (((e.Up? || e.Down?) && e.fd == f)
        || (e.Send? && e.valid && e.outcome == Broke && e.svc in a.fds && a.fds[e.svc] == f))
  }

  ghost predicate Gets(a: Snap, e: Event, f: int) {
    (e.Start? || e.Timer?) && Attempts(a, e, e.svc) && e.connect == f && f >= 0
  }

  /** The entry of f in t: without a service once a link event has missed; otherwise gone when its descriptor is given
      up; and then, or if there was none, the service's that gets the descriptor. An entry still there stays. */
  ghost predicate EntryIs(a: Snap, e: Event, f: int, t: map<int, AsyncService?>) {
    && (Missed(a, e, f) ==> f in t && t[f] == null)
    && (!Missed(a, e, f) && Gets(a, e, f) && (f !in a.table || GivenUp(a, e, f)) ==> f in t && t[f] == e.svc)
    && (!Missed(a, e, f) && !Gets(a, e, f) && GivenUp(a, e, f) ==> f !in t)
    && (!Missed(a, e, f) && !GivenUp(a, e, f) && (f in a.table || !Gets(a, e, f)) ==>
          (f in t <==> f in a.table) && (f in t ==> t[f] == a.table[f]))
  }

  /** Exactly what an event makes of the table: an entry still there is never overwritten. */
  lemma EntryExactly(a: Snap, e: Event, f: int)
    requires Fine(a) && Possible(a, e)
    ensures EntryIs(a, e, f, Next(a, e).table)
  {
    hide EntryIs, Fine, Next, Possible;
    if e.Start? {
      EntryByStart(a, e, f);
    } else if e.Timer? {
      EntryByTimer(a, e, f);
    } else if e.Send? {
      EntryBySend(a, e, f);
    } else {
      EntryByLink(a, e, f);
    }
  }

  lemma EntryByStart(a: Snap, e: Event, f: int)
    requires Fine(a) && Possible(a, e) && e.Start?
    ensures EntryIs(a, e, f, Next(a, e).table)
  {
    GivenUpByOwn(a, e, f, e.svc);
    SinceHeld(a, e.svc);
    hide GivenUp, Fine;
  }

  lemma EntryByTimer(a: Snap, e: Event, f: int)
    requires Fine(a) && Possible(a, e) && e.Timer?
    ensures EntryIs(a, e, f, Next(a, e).table)
  {
    GivenUpByOwn(a, e, f, e.svc);
    SinceHeld(a, e.svc);
    hide GivenUp, Fine;
  }

  lemma SinceHeld(a: Snap, s: AsyncService)
    requires Fine(a)
    ensures s in a.since ==> s in a.fds
    ensures s in a.fds && a.fds[s] in a.table && a.table[a.fds[s]] != null ==>
              a.table[a.fds[s]] in a.fds && a.fds[a.table[a.fds[s]]] == a.fds[s]
  {
  }

  lemma EntryBySend(a: Snap, e: Event, f: int)
    requires Fine(a) && Possible(a, e) && e.Send?
    ensures EntryIs(a, e, f, Next(a, e).table)
  {
  }

  lemma EntryByLink(a: Snap, e: Event, f: int)
    requires Fine(a) && Possible(a, e) && (e.Up? || e.Down?)
    ensures EntryIs(a, e, f, Next(a, e).table)
  {
  }

  lemma GivenUpByOwn(a: Snap, e: Event, f: int, s: AsyncService)
    requires OwnInit(e, s)
    ensures GivenUp(a, e, f) <==> s in a.fds && a.fds[s] == f && (NoAttempt(a, e, s) || !GoesOn(a, s, e.now))
  {
    hide NoAttempt, GoesOn;
    assert s in a.fds && a.fds[s] == f && Releases(a, e, s) ==> GivenUp(a, e, f);
  }

  // ----- whole runs -----

  ghost predicate Undisturbed(a: Snap, events: seq<Event>, i: nat, n: nat, s: AsyncService)
    requires n <= |events|
  {
    forall k :: i <= k < n ==> !Loses(After(a, events[..k]), events[k], s) && !OwnInit(events[k], s)
  }

  /** The link came up at event k, and nothing has happened to it since. */
  ghost predicate UpSince(a: Snap, events: seq<Event>, k: nat, n: nat, s: AsyncService)
    requires n <= |events|
  {
    k < n && LinksUp(After(a, events[..k]), events[k], s) && Undisturbed(a, events, k + 1, n, s)
  }

  /** In every run: a service is enabled exactly when at some event its link came up, or it was enabled at first, and it
      has neither lost its link nor been initialized since. */
  lemma {:induction false} EnabledSince(a: Snap, events: seq<Event>, n: nat, s: AsyncService)
    requires Fine(a) && Runs(a, events) && n <= |events|
    ensures Enabled(After(a, events[..n]), s)
            <==> (Enabled(a, s) && Undisturbed(a, events, 0, n, s)) || exists k: nat :: UpSince(a, events, k, n, s)
  {
    hide Fine, Next, Possible, Crashes, LinksUp, Loses, Enabled, OwnInit, Undisturbed, UpSince;
    if n == 0 {
      assert events[..0] == [];
      NeverUp(a, events, s);
    } else {
      var m := n - 1;
      var b, e := After(a, events[..m]), events[m];
      NoneLost(a, events, m);
      EnabledSince(a, events, m, s);
      AfterStep(a, events, m);
      EnabledExactly(b, e, s);
      UndisturbedOn(a, events, m, 0, s);
      UpSinceNow(a, events, m, s);
      if LinksUp(b, e, s) {
        assert UpSince(a, events, m, n, s);
      } else {
        forall k: nat
          ensures UpSince(a, events, k, n, s) <==> UpSince(a, events, k, m, s) && !Loses(b, e, s) && !OwnInit(e, s)
        {
          if k != m {
            UpSinceOn(a, events, m, k, s);
          }
        }
      }
    }
  }

  lemma NeverUp(a: Snap, events: seq<Event>, s: AsyncService)
    ensures Undisturbed(a, events, 0, 0, s) && forall k: nat :: !UpSince(a, events, k, 0, s)
  {
  }

  lemma UndisturbedOn(a: Snap, events: seq<Event>, n: nat, i: nat, s: AsyncService)
    requires n < |events| && i <= n
    ensures Undisturbed(a, events, i, n + 1, s)
            <==> Undisturbed(a, events, i, n, s) && !Loses(After(a, events[..n]), events[n], s)
                 && !OwnInit(events[n], s)
  {
    hide Loses, OwnInit, After;
  }

  lemma UpSinceOn(a: Snap, events: seq<Event>, n: nat, k: nat, s: AsyncService)
    requires n < |events| && k != n
    ensures UpSince(a, events, k, n + 1, s)
            <==> UpSince(a, events, k, n, s) && !Loses(After(a, events[..n]), events[n], s) && !OwnInit(events[n], s)
  {
    hide Loses, OwnInit, After, LinksUp, Undisturbed;
    if k < n {
      UndisturbedOn(a, events, n, k + 1, s);
    }
  }

  lemma UpSinceNow(a: Snap, events: seq<Event>, n: nat, s: AsyncService)
    requires n < |events|
    ensures UpSince(a, events, n, n + 1, s) <==> LinksUp(After(a, events[..n]), events[n], s)
    ensures !UpSince(a, events, n, n, s)
  {
    hide Loses, OwnInit, After, LinksUp;
  }
}
