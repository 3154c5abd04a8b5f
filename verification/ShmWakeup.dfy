/** When the wake-up pipe of shmq.cpp is large enough: exactly when no reachable state loses a wake-up. */
module ShmWakeup {
  import opened Bytes
  import opened ShmBlock
  import opened ShmConcurrent

  ghost predicate Quiet(s: State, size: nat, cap: nat) {
    Reachable(s, size, cap) && s.prod.Idle? && s.cons.Asleep?
  }

  /** Every unread block takes n bytes of the ring at most. */
  ghost predicate Sized(s: State, n: nat) {
    s.pulled <= s.pushed && forall i :: |s.pulled| <= i < |s.pushed| ==> Fitting(s.pushed[i], n)
  }

  predicate Fitting(b: Block, n: nat) {
    WellFormed(b) && HEAD + |b.body| <= n
  }

  lemma {:induction false} SizedImages(q: seq<Block>, n: nat)
    requires forall i :: 0 <= i < |q| ==> Fitting(q[i], n)
    ensures AllWellFormed(q) && |Images(q)| <= n * |q|
  {
    hide HeadBytes;
    if q != [] {
      SizedImages(q[1..], n);
      OneMore(n, |q| - 1);
    }
  }

  lemma OneMore(n: nat, k: nat)
    ensures n * (k + 1) == n * k + n
  {
  }

  lemma Extend(s: State, s': State, size: nat, cap: nat)
    requires Reachable(s, size, cap) && Step(s, s', cap)
    ensures Reachable(s', size, cap)
  {
    hide Step, Init;
    var run :| Run(run, size, cap) && run[|run| - 1] == s;
    var run' := run + [s'];
    forall i | 0 <= i < |run'| - 1 ensures Step(run'[i], run'[i + 1], cap) {
      if i < |run| - 1 {
        assert run'[i] == run[i] && run'[i + 1] == run[i + 1];
      }
    }
    assert run'[0] == run[0];
    assert Run(run', size, cap) && run'[|run'| - 1] == s';
  }

  lemma ProducerExtend(s: State, s': State, size: nat, cap: nat)
    requires Reachable(s, size, cap) && ProducerStep(s, s', cap)
    ensures Reachable(s', size, cap)
  {
    hide ProducerStep, ConsumerStep, Reachable;
    Extend(s, s', size, cap);
  }

  lemma ConsumerExtend(s: State, s': State, size: nat, cap: nat)
    requires Reachable(s, size, cap) && ConsumerStep(s, s')
    ensures Reachable(s', size, cap)
  {
    hide ProducerStep, ConsumerStep, Reachable;
    Extend(s, s', size, cap);
  }

  // ----- a whole push -----

  /** The rest of a segment is copied. */
  lemma {:induction false} CopyRest(s: State, size: nat, cap: nat) returns (s': State)
    requires size > 0 && Reachable(s, size, cap) && s.prod.Writing? && WellFormed(s.prod.b)
    requires s.prod.k <= |Segment(s.prod)|
    ensures Reachable(s', size, cap)
    ensures s' == s.(base := s'.base, prod := s.prod.(k := |Segment(s.prod)|))
    decreases |Segment(s.prod)| - s.prod.k
  {
    hide Reachable, Inv, Slot, HeadBytes, Pos;
    s' := s;
    if s.prod.k < |Segment(s.prod)| {
      ReachableInv(s, size, cap);
      CopyHasRoom(s);
      var s1 := s.(base := s.base[Wrap(s.prod.pos, s.prod.k, size) := Segment(s.prod)[s.prod.k]],
                   prod := s.prod.(k := s.prod.k + 1));
      assert Copy(s, s1);
      ProducerExtend(s, s1, size, cap);
      s' := CopyRest(s1, size, cap);
    }
  }

  lemma CopyHasRoom(s: State)
    requires Inv(s) && s.prod.Writing?
    ensures HEAD <= |s.base| && |s.prod.b.body| <= |s.base| && s.prod.pos <= |s.base|
  {
    hide Holds, Images, Slot, Copied, ConsumerOk;
  }

  /** From a quiet state with room, a block can be pushed. */
  lemma PushOne(s: State, size: nat, cap: nat, b: Block, n: nat) returns (s': State)
    requires size > 0 && Quiet(s, size, cap) && Sized(s, n) && Fitting(b, n) && n * (|Queue(s)| + 1) < size
    ensures Quiet(s', size, cap) && Sized(s', n)
    ensures s'.pushed == s.pushed + [b] && s'.pulled == s.pulled
    ensures s'.pipe == if s.pipe < cap then s.pipe + 1 else s.pipe
  {
    hide Reachable, Slot, HeadBytes, Pos, Holds, Copied, Images;
    ReachableInv(s, size, cap);
    SizedImages(Queue(s), n);
    OneMore(n, |Queue(s)|);
    UsedIsExact(s.read, s.written, size);
    var s1 := s.(prod := Writing(b, false, s.w, 0));
    assert StartWith(s, b, s1);
    ProducerExtend(s, s1, size, cap);
    hide Inv;
    var s2 := CopyRest(s1, size, cap);
    ReachableInv(s2, size, cap);
    CopyHasRoom(s2);
    var s3 := s2.(prod := Writing(b, true, Advance(s2.prod.pos, HEAD, size), 0));
    assert ToBody(s2, s3);
    ProducerExtend(s2, s3, size, cap);
    var s4 := CopyRest(s3, size, cap);
    ReachableInv(s4, size, cap);
    CopyHasRoom(s4);
    var s5 := s4.(w := Advance(s4.prod.pos, s4.prod.k, size), prod := Waking,
                  pushed := s4.pushed + [b], written := s4.written + HEAD + s4.prod.k);
    assert Publish(s4, s5);
    ProducerExtend(s4, s5, size, cap);
    s' := s5.(prod := Idle, pipe := if s5.pipe < cap then s5.pipe + 1 else s5.pipe);
    assert Wake(s5, s', cap);
    ProducerExtend(s5, s', size, cap);
  }

  /** The blocks made for the next m numbers, in a row, the pipe filling up on the way. */
  lemma {:induction false} PushMany(s: State, size: nat, cap: nat, make: nat -> Block, n: nat, m: nat)
    returns (s': State)
    requires size > 0 && Quiet(s, size, cap) && Made(s, make, n) && n * (|Queue(s)| + m) < size
    requires s.pipe <= cap
    ensures Quiet(s', size, cap) && Made(s', make, n) && |Queue(s')| == |Queue(s)| + m
    ensures s'.pipe == (if s.pipe + m <= cap then s.pipe + m else cap) && s'.pulled == s.pulled
    decreases m
  {
    hide Quiet;
    s' := s;
    if m > 0 {
      MadeSized(s, make, n);
      Fewer(n, |Queue(s)| + 1, |Queue(s)| + m);
      s' := PushOne(s, size, cap, make(|s.pushed|), n);
      assert |Queue(s')| == |Queue(s)| + 1;
      s' := PushMany(s', size, cap, make, n, m - 1);
    }
  }

  lemma Fewer(n: nat, a: nat, b: nat)
    requires a <= b
    ensures n * a <= n * b
  {
  }

  /** The k-th block pushed is the one made for k; those not pulled yet take n bytes at most. */
  ghost predicate Made(s: State, make: nat -> Block, n: nat) {
    && s.pulled <= s.pushed && (forall k: nat :: k >= |s.pulled| ==> Fitting(make(k), n))
    && forall k :: 0 <= k < |s.pushed| ==> s.pushed[k] == make(k)
  }

  lemma MadeSized(s: State, make: nat -> Block, n: nat)
    requires Made(s, make, n)
    ensures Sized(s, n) && Fitting(make(|s.pushed|), n)
  {
  }

  // ----- a whole handler run -----

  lemma {:induction false} ReadWholeHead(s: State, size: nat, cap: nat) returns (s': State)
    requires size > 0 && Reachable(s, size, cap) && s.cons.Reading? && !s.cons.inBody && |s.cons.head| <= HEAD
    ensures Reachable(s', size, cap) && s'.cons.Reading? && s' == s.(cons := s.cons.(head := s'.cons.head))
            && |s'.cons.head| == HEAD
    decreases HEAD - |s.cons.head|
  {
    hide Reachable, Inv, Slot, HeadBytes, Pos;
    s' := s;
    if |s.cons.head| < HEAD {
      ReachableInv(s, size, cap);
      ReadHasRoom(s);
      var s1 := s.(cons := s.cons.(head := s.cons.head + [s.base[Wrap(s.cons.pos, |s.cons.head|, size)]]));
      assert ReadHead(s, s1);
      ConsumerExtend(s, s1, size, cap);
      s' := ReadWholeHead(s1, size, cap);
    }
  }

  lemma {:induction false} ReadWholeBody(s: State, size: nat, cap: nat) returns (s': State)
    requires size > 0 && Reachable(s, size, cap) && s.cons.Reading? && s.cons.inBody && |s.cons.head| == HEAD
    requires |s.cons.body| <= HeadLen(s.cons.head)
    ensures Reachable(s', size, cap) && s'.cons.Reading? && s' == s.(cons := s.cons.(body := s'.cons.body))
    ensures |s'.cons.body| == HeadLen(s.cons.head)
    decreases HeadLen(s.cons.head) - |s.cons.body|
  {
    hide Reachable, Inv, Slot, HeadBytes, Pos, HeadLen;
    s' := s;
    if |s.cons.body| < HeadLen(s.cons.head) {
      ReachableInv(s, size, cap);
      ReadHasRoom(s);
      var s1 := s.(cons := s.cons.(body := s.cons.body + [s.base[Wrap(s.cons.pos, |s.cons.body|, size)]]));
      assert ReadBody(s, s1);
      ConsumerExtend(s, s1, size, cap);
      s' := ReadWholeBody(s1, size, cap);
    }
  }

  lemma ReadHasRoom(s: State)
    requires Inv(s) && s.cons.Reading?
    ensures HEAD <= |s.base| && s.cons.pos <= |s.base| && s.pulled < s.pushed && s.cons.left > 0
    ensures |s.cons.head| == HEAD ==> s.cons.head == HeadBytes(Queue(s)[0])
                                      && HeadLen(s.cons.head) == |Queue(s)[0].body|
                                      && FromImage(s.cons.head, Queue(s)[0].body) == Queue(s)[0]
    ensures s.cons.inBody ==> |s.cons.head| == HEAD && s.cons.body <= Queue(s)[0].body && |Queue(s)[0].body| < |s.base|
    ensures !s.cons.inBody ==> s.cons.body == []
  {
    hide Holds, Images, Slot, Copied, ProducerOk, HeadBytes, HeadLen, FromImage, Pos;
    FirstUnread(s);
  }

  /** One pull of a running handler. */
  lemma PullOne(s: State, size: nat, cap: nat) returns (s': State)
    requires size > 0 && Reachable(s, size, cap) && s.cons.Looking? && s.cons.left > 0 && s.pulled < s.pushed
    ensures Reachable(s', size, cap) && s'.cons == Looking(s.cons.left - 1) && s'.prod == s.prod && s'.pipe == s.pipe
    ensures s'.pushed == s.pushed && s'.pulled == s.pulled + [s.pushed[|s.pulled|]]
  {
    hide Reachable, Inv, Slot, HeadBytes, Pos, Holds, Images, Copied, HeadLen, FromImage;
    ReachableInv(s, size, cap);
    SeenAsFilled(s);
    var s1 := s.(cons := Reading(s.cons.left, false, s.r, [], []));
    assert Look(s, s1);
    ConsumerExtend(s, s1, size, cap);
    var s2 := ReadWholeHead(s1, size, cap);
    ReachableInv(s2, size, cap);
    ReadHasRoom(s2);
    var s3 := s2.(cons := s2.cons.(inBody := true, pos := Advance(s2.cons.pos, HEAD, size)));
    assert HeadRead(s2, s3);
    ConsumerExtend(s2, s3, size, cap);
    var s4 := ReadWholeBody(s3, size, cap);
    ReachableInv(s4, size, cap);
    ReadHasRoom(s4);
    assert s4.cons.body == Queue(s)[0].body;
    s' := s4.(r := Advance(s4.cons.pos, |s4.cons.body|, size), cons := Looking(s.cons.left - 1),
              pulled := s4.pulled + [FromImage(s4.cons.head, s4.cons.body)], read := s4.read + HEAD + |s4.cons.body|);
    assert Pulled(s4, s');
    ConsumerExtend(s4, s', size, cap);
  }

  lemma SeenAsFilled(s: State)
    requires Inv(s) && s.pulled < s.pushed
    ensures Used(s.w, s.r, |s.base|) != 0
  {
    ImagesLength(Queue(s));
    hide Slot, Pos, Holds, HeadBytes, Images, Copied, ProducerOk, ConsumerOk;
    UsedIsExact(s.read, s.written, |s.base|);
  }

  /** All the pulls a running handler has left, as far as there are blocks; then it ends. */
  lemma {:induction false} PullMany(s: State, size: nat, cap: nat, make: nat -> Block, n: nat) returns (s': State)
    requires size > 0 && Reachable(s, size, cap) && s.cons.Looking? && s.prod.Idle?
    requires Made(s, make, n)
    ensures Quiet(s', size, cap) && Made(s', make, n) && s'.pipe == s.pipe && s'.pushed == s.pushed
    ensures |Queue(s')| == if s.cons.left < |Queue(s)| then |Queue(s)| - s.cons.left else 0
    decreases s.cons.left
  {
    hide Reachable;
    if s.cons.left == 0 || Queue(s) == [] {
      ReachableInv(s, size, cap);
      if Queue(s) == [] {
        SeenAsEmpty(s);
      }
      s' := s.(cons := Asleep);
      assert Look(s, s');
      ConsumerExtend(s, s', size, cap);
    } else {
      s' := PullOne(s, size, cap);
      s' := PullMany(s', size, cap, make, n);
    }
  }

  lemma SeenAsEmpty(s: State)
    requires Inv(s) && Queue(s) == []
    ensures Used(s.w, s.r, |s.base|) == 0
  {
    hide Slot, Pos, Holds, HeadBytes, Copied, ProducerOk, ConsumerOk;
    UsedIsExact(s.read, s.written, |s.base|);
  }

  /** One handler run: up to 1024 bytes of the pipe, and up to 1024 blocks. */
  lemma RunHandler(s: State, size: nat, cap: nat, make: nat -> Block, n: nat) returns (s': State)
    requires size > 0 && Quiet(s, size, cap) && Made(s, make, n) && s.pipe > 0
    ensures Quiet(s', size, cap) && Made(s', make, n) && s'.pushed == s.pushed
    ensures |Queue(s')| == if BATCH < |Queue(s)| then |Queue(s)| - BATCH else 0
    ensures s'.pipe == if s.pipe < BATCH then 0 else s.pipe - BATCH
  {
    hide Reachable;
    var s1 := s.(cons := Looking(BATCH), pipe := if s.pipe < BATCH then 0 else s.pipe - BATCH);
    assert HandlerRuns(s, s1);
    ConsumerExtend(s, s1, size, cap);
    s' := PullMany(s1, size, cap, make, n);
  }

  /** Handler runs until fewer than 1024 bytes are left in the pipe. */
  lemma {:induction false} DrainPipe(s: State, size: nat, cap: nat, make: nat -> Block, n: nat) returns (s': State)
    requires size > 0 && Quiet(s, size, cap) && Made(s, make, n) && |Queue(s)| == s.pipe + 1
    ensures Quiet(s', size, cap) && Made(s', make, n) && |Queue(s')| == s'.pipe + 1 && s'.pipe < BATCH
            && s'.pipe <= s.pipe
    decreases s.pipe
  {
    hide Quiet;
    s' := s;
    if s.pipe >= BATCH {
      s' := RunHandler(s, size, cap, make, n);
      s' := DrainPipe(s', size, cap, make, n);
    }
  }

  lemma Beginning(size: nat, cap: nat, make: nat -> Block, n: nat) returns (s: State)
    requires forall k: nat :: Fitting(make(k), n)
    ensures Quiet(s, size, cap) && Made(s, make, n) && s.pipe == 0 && s.pushed == s.pulled == []
  {
    s := State(seq(size, _ => 0), 0, 0, 0, Idle, Asleep, [], [], 0, 0);
    assert Run([s], size, cap);
    assert [s][|[s]| - 1] == s;
  }

  /** A first block, pushed and pulled. */
  lemma Opened(size: nat, cap: nat, make: nat -> Block, n: nat) returns (s: State)
    requires cap > 0 && Fitting(make(0), LOGIN_SIZE) && (forall k: nat :: k > 0 ==> Fitting(make(k), n))
    requires LOGIN_SIZE < size && n < size
    ensures Quiet(s, size, cap) && Made(s, make, n) && s.pipe == 0 && Queue(s) == []
  {
    var m := if n < LOGIN_SIZE then LOGIN_SIZE else n;
    forall k: nat ensures Fitting(make(k), m) {
      assert k > 0 ==> Fitting(make(k), n);
    }
    s := Beginning(size, cap, make, m);
    s := PushMany(s, size, cap, make, m, 1);
    s := RunHandler(s, size, cap, make, m);
    hide Quiet;
    assert Queue(s) == [] && |s.pulled| > 0;
  }

  /** From there on, a ring that can hold a block more than the pipe takes bytes, and more than a handler run pulls,
      loses a wake-up. */
  lemma LoseWakeup(size: nat, cap: nat, make: nat -> Block, n: nat) returns (s: State)
    requires cap > 0 && Fitting(make(0), LOGIN_SIZE) && (forall k: nat :: k > 0 ==> Fitting(make(k), n))
    requires LOGIN_SIZE < size && n * (cap + 1) < size && n * (BATCH + 1) < size
    ensures Reachable(s, size, cap) && Lost(s) && forall k :: 0 <= k < |s.pushed| ==> s.pushed[k] == make(k)
  {
    s := Opened(size, cap, make, n);
    hide Quiet, Made;
    if cap < BATCH {
      s := PushMany(s, size, cap, make, n, BATCH + 1);
      s := RunHandler(s, size, cap, make, n);
    } else {
      s := PushMany(s, size, cap, make, n, cap + 1);
      s := DrainPipe(s, size, cap, make, n);
      s := PushMany(s, size, cap, make, n, BATCH - s.pipe);
      s := RunHandler(s, size, cap, make, n);
    }
    QuietLost(s, size, cap, make, n);
  }

  lemma QuietLost(s: State, size: nat, cap: nat, make: nat -> Block, n: nat)
    requires Quiet(s, size, cap) && Made(s, make, n) && s.pipe == 0 && Queue(s) != []
    ensures Reachable(s, size, cap) && Lost(s) && forall k :: 0 <= k < |s.pushed| ==> s.pushed[k] == make(k)
  {
  }

  /** A first block, pushed, with a pipe that takes no byte. */
  lemma LoseFirst(size: nat, make: nat -> Block, n: nat) returns (s: State)
    requires (forall k: nat :: Fitting(make(k), n)) && n < size
    ensures Reachable(s, size, 0) && Lost(s) && s.pushed == [make(0)]
  {
    s := Beginning(size, 0, make, n);
    s := PushMany(s, size, 0, make, n, 1);
    hide Quiet;
    QuietLost(s, size, 0, make, n);
    assert |s.pushed| == 1;
  }

  /** The descriptor and the id of the session in the runs below. */
  const CLIENT := 5
  const FIRST_ID := 1

  /** A LOGIN block, the session's first: the client's address is its body. */
  function Login(): Block {
    Block(CLIENT, FIRST_ID, LOGIN_BLOCK, [0, 0, 0], [127, 0, 0, 1])
  }

  const LOGIN_SIZE := 20

  /** CLOSE blocks, the smallest blocks there are: the session is shut down again and again while its list drains. */
  function Close(): Block {
    Block(CLIENT, FIRST_ID, CLOSE_BLOCK, [0, 0, 0], [])
  }

  function Closing(k: nat): Block {
    if k == 0 then Login() else Close()
  }

  /** What wake-ups are safe with: a pipe byte for every block the ring can hold; or any pipe at all, when one
      handler run pulls every block the ring can hold. */
  predicate WakeupsSafe(size: nat, cap: nat) {
    PipeSuffices(size, cap) || (cap > 0 && PipeSuffices(size, BATCH))
  }

  /** Otherwise a wake-up can be lost, by one session: its LOGIN, and then CLOSE blocks. Where not even a LOGIN fits the
      ring, and the pipe takes nothing, it is a single CLOSE. */
  lemma WakeupLost(size: nat, cap: nat) returns (s: State)
    requires !WakeupsSafe(size, cap)
    ensures Reachable(s, size, cap) && Lost(s)
    ensures if cap > 0 || size > LOGIN_SIZE then forall k :: 0 <= k < |s.pushed| ==> s.pushed[k] == Closing(k)
            else s.pushed == [Close()]
  {
    if cap > 0 {
      s := LoseWakeup(size, cap, Closing, HEAD);
    } else if size > LOGIN_SIZE {
      s := LoseFirst(size, Closing, LOGIN_SIZE);
    } else {
      s := LoseFirst(size, k => Close(), HEAD);
    }
  }

  /** With a small ring: whenever the pipe is empty, and no write is due, the running handler pulls all there is. */
  ghost predicate Covered(s: State) {
    s.pulled <= s.pushed && (s.pipe == 0 && !s.prod.Waking? ==> |Queue(s)| <= PullsLeft(s.cons))
  }

  lemma CoveredStep(s: State, s': State, cap: nat)
    requires Inv(s) && Inv(s') && Step(s, s', cap) && Covered(s) && cap > 0 && PipeSuffices(|s.base|, BATCH)
    ensures Covered(s')
  {
    hide Inv, Slot, Pos, Holds, HeadBytes, HeadLen, FromImage, Segment, Wrap, Advance;
    QueueNumbers(s);
    QueueNumbers(s');
    if Pulled(s, s') {
      PulledInv(s, s');
    }
  }

  lemma {:induction false} RunCovered(run: seq<State>, size: nat, cap: nat, i: nat)
    requires Run(run, size, cap) && size > 0 && i < |run| && cap > 0 && PipeSuffices(size, BATCH)
    ensures Covered(run[i])
  {
    hide Inv;
    if i > 0 {
      RunCovered(run, size, cap, i - 1);
      RunInv(run, size, cap, i - 1);
      RunInv(run, size, cap, i);
      assert Step(run[i - 1], run[i - 1 + 1], cap);
      hide Step, Covered;
      CoveredStep(run[i - 1], run[i], cap);
    }
  }

  lemma SmallRingWakes(s: State, size: nat, cap: nat)
    requires Reachable(s, size, cap) && size > 0 && cap > 0 && PipeSuffices(size, BATCH)
    ensures !Lost(s)
  {
    hide Step, Init;
    var run :| Run(run, size, cap) && run[|run| - 1] == s;
    RunCovered(run, size, cap, |run| - 1);
  }

  /** For every ring and every pipe: no run loses a wake-up if and only if wake-ups are safe. */
  lemma WakeupExact(size: nat, cap: nat)
    requires size > 0
    ensures (forall s :: Reachable(s, size, cap) ==> !Lost(s)) <==> WakeupsSafe(size, cap)
  {
    hide Reachable, Lost;
    if PipeSuffices(size, cap) {
      forall s | Reachable(s, size, cap) ensures !Lost(s) {
        NoLostWakeup(s, size, cap);
      }
    } else if cap > 0 && PipeSuffices(size, BATCH) {
      forall s | Reachable(s, size, cap) ensures !Lost(s) {
        SmallRingWakes(s, size, cap);
      }
    } else {
      var s := WakeupLost(size, cap);
    }
  }

  /** Requests of 18 bytes, a packet header and nothing else, after the session's LOGIN. */
  function Request(k: nat): Block {
    if k == 0 then Login()
    else Block(CLIENT, FIRST_ID, PROTO_BLOCK, [0, 0, 0], Le32(18) + seq(14, _ => 0))
  }

  /** The default ring of 8388608 bytes, 16 of them its head, and a Linux pipe of 65536 bytes lose a wake-up to the
      requests of one session. */
  lemma DefaultsLoseWakeups() returns (s: State)
    ensures Reachable(s, 8388608 - 16, 65536) && Lost(s)
    ensures forall k :: 0 <= k < |s.pushed| ==> s.pushed[k] == Request(k)
  {
    s := LoseWakeup(8388608 - 16, 65536, Request, HEAD + 18);
  }
}
