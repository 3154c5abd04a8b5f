/** The ring of shmq.cpp with both processes at work: every byte copied, every position published and
    every pipe byte written or read is a step of its own, in any order the two processes produce. */
module ShmConcurrent {
  import opened Bytes
  import opened ShmBlock

  /** How many bytes one handler run takes from the pipe, and how many blocks it pulls at most. */
  const BATCH := 1024

  /** The process pushing: between pushes, copying (the header, then the body, from position pos on,
      k bytes so far), or about to write the wake-up byte of a published block. */
  datatype Producer = Idle | Writing(b: Block, inBody: bool, pos: nat, k: nat) | Waking

  /** The process pulling: outside its handler, between pulls with some pulls left, or copying out. */
  datatype Consumer =
    | Asleep
    | Looking(left: nat)
    | Reading(left: nat, inBody: bool, pos: nat, head: bytes, body: bytes)

  /** The shared bytes, the published positions and the pipe; the two processes; and, for the record,
      what has been published and pulled, in blocks and in bytes. */
  datatype State = State(
    base: bytes, w: nat, r: nat, pipe: nat,
    prod: Producer, cons: Consumer,
    pushed: seq<Block>, pulled: seq<Block>, written: nat, read: nat)

  ghost predicate Init(s: State, size: nat) {
    |s.base| == size && s == State(s.base, 0, 0, 0, Idle, Asleep, [], [], 0, 0)
  }

  // ----- producer steps: shmq_push, write_pipe -----

  function Segment(p: Producer): bytes
    requires p.Writing? && WellFormed(p.b)
  {
    if p.inBody then p.b.body else HeadBytes(p.b)
  }

  /** Reads both positions; starts copying when the block fits. */
  ghost predicate Start(s: State, s': State) {
    exists b :: StartWith(s, b, s')
  }

  ghost predicate StartWith(s: State, b: Block, s': State) {
    && s.prod.Idle? && WellFormed(b) && |b.body| < |s.base|
    && Free(s.w, s.r, |s.base|) >= HEAD + |b.body| + 1
    && s' == s.(prod := Writing(b, false, s.w, 0))
  }

  ghost predicate Copy(s: State, s': State) {
    && s.prod.Writing? && WellFormed(s.prod.b) && s.prod.k < |Segment(s.prod)|
    && s.prod.pos <= |s.base| && s.prod.k < |s.base|
    && s' == s.(base := s.base[Wrap(s.prod.pos, s.prod.k, |s.base|) := Segment(s.prod)[s.prod.k]],
                prod := s.prod.(k := s.prod.k + 1))
  }

  ghost predicate ToBody(s: State, s': State) {
    && s.prod.Writing? && !s.prod.inBody && s.prod.k == HEAD
    && s.prod.pos <= |s.base| && HEAD <= |s.base|
    && s' == s.(prod := Writing(s.prod.b, true, Advance(s.prod.pos, HEAD, |s.base|), 0))
  }

  ghost predicate Publish(s: State, s': State) {
    && s.prod.Writing? && s.prod.inBody && s.prod.k == |s.prod.b.body|
    && s.prod.pos <= |s.base| && s.prod.k <= |s.base|
    && s' == s.(w := Advance(s.prod.pos, s.prod.k, |s.base|), prod := Waking,
                pushed := s.pushed + [s.prod.b], written := s.written + HEAD + s.prod.k)
  }

  /** A write to a full pipe is dropped. */
  ghost predicate Wake(s: State, s': State, cap: nat) {
    && s.prod.Waking?
    && s' == s.(prod := Idle, pipe := if s.pipe < cap then s.pipe + 1 else s.pipe)
  }

  // ----- consumer steps: the event loop, pruge_pipe, shmq_pull -----

  ghost predicate HandlerRuns(s: State, s': State) {
    && s.cons.Asleep? && s.pipe > 0
    && s' == s.(cons := Looking(BATCH), pipe := if s.pipe < BATCH then 0 else s.pipe - BATCH)
  }

  ghost predicate Look(s: State, s': State) {
    && s.cons.Looking?
    && s' == s.(cons := if s.cons.left == 0 || Used(s.w, s.r, |s.base|) == 0 then Asleep
                        else Reading(s.cons.left, false, s.r, [], []))
  }

  ghost predicate ReadHead(s: State, s': State) {
    && s.cons.Reading? && !s.cons.inBody && |s.cons.head| < HEAD
    && s.cons.pos <= |s.base| && |s.cons.head| < |s.base|
    && s' == s.(cons := s.cons.(head := s.cons.head + [s.base[Wrap(s.cons.pos, |s.cons.head|, |s.base|)]]))
  }

  ghost predicate HeadRead(s: State, s': State) {
    && s.cons.Reading? && !s.cons.inBody && |s.cons.head| == HEAD
    && s.cons.pos <= |s.base| && HEAD <= |s.base|
    && s' == s.(cons := s.cons.(inBody := true, pos := Advance(s.cons.pos, HEAD, |s.base|)))
  }

  ghost predicate ReadBody(s: State, s': State) {
    && s.cons.Reading? && s.cons.inBody && |s.cons.head| == HEAD && |s.cons.body| < HeadLen(s.cons.head)
    && s.cons.pos <= |s.base| && |s.cons.body| < |s.base|
    && s' == s.(cons := s.cons.(body := s.cons.body + [s.base[Wrap(s.cons.pos, |s.cons.body|, |s.base|)]]))
  }

  ghost predicate Pulled(s: State, s': State) {
    && s.cons.Reading? && s.cons.inBody && |s.cons.head| == HEAD && |s.cons.body| == HeadLen(s.cons.head)
    && s.cons.pos <= |s.base| && |s.cons.body| <= |s.base| && s.cons.left > 0
    && s' == s.(r := Advance(s.cons.pos, |s.cons.body|, |s.base|), cons := Looking(s.cons.left - 1),
                pulled := s.pulled + [FromImage(s.cons.head, s.cons.body)],
                read := s.read + HEAD + |s.cons.body|)
  }

  ghost predicate ProducerStep(s: State, s': State, cap: nat) {
    Start(s, s') || Copy(s, s') || ToBody(s, s') || Publish(s, s') || Wake(s, s', cap)
  }

  ghost predicate ConsumerStep(s: State, s': State) {
    HandlerRuns(s, s') || Look(s, s') || ReadHead(s, s') || HeadRead(s, s') || ReadBody(s, s') || Pulled(s, s')
  }

  ghost predicate Step(s: State, s': State, cap: nat) {
    ProducerStep(s, s', cap) || ConsumerStep(s, s')
  }

  /** A run: any interleaving of producer and consumer steps. */
  ghost predicate Run(run: seq<State>, size: nat, cap: nat) {
    && run != [] && Init(run[0], size)
    && forall i :: 0 <= i < |run| - 1 ==> Step(run[i], run[i + 1], cap)
  }

  ghost predicate Reachable(s: State, size: nat, cap: nat) {
    exists run :: Run(run, size, cap) && run[|run| - 1] == s
  }

  // ----- the invariant -----

  ghost predicate AllWellFormed(q: seq<Block>) {
    forall i :: 0 <= i < |q| ==> WellFormed(q[i])
  }

  /** Published and not yet pulled. */
  function Queue(s: State): seq<Block>
    requires |s.pulled| <= |s.pushed|
  {
    s.pushed[|s.pulled|..]
  }

  /** What the producer has copied of the block it is working on. */
  function Copied(p: Producer): bytes
    requires p.Writing? ==> WellFormed(p.b) && p.k <= |Segment(p)|
  {
    if !p.Writing? then [] else if p.inBody then HeadBytes(p.b) + p.b.body[..p.k] else HeadBytes(p.b)[..p.k]
  }

  /** The positions agree with the byte counts, and never a full ring is in use. */
  ghost predicate PositionsOk(s: State) {
    && |s.base| > 0
    && s.read <= s.written < s.read + |s.base|
    && s.w == Pos(s.written, |s.base|) && s.r == Pos(s.read, |s.base|)
  }

  ghost predicate ProducerOk(s: State)
    requires PositionsOk(s)
  {
    s.prod.Writing? ==>
      && WellFormed(s.prod.b) && s.prod.k <= |Segment(s.prod)|
      && s.written + HEAD + |s.prod.b.body| < s.read + |s.base|
      && s.prod.pos == Pos(s.written + (if s.prod.inBody then HEAD else 0), |s.base|)
  }

  ghost predicate ConsumerOk(s: State)
    requires PositionsOk(s) && |s.pulled| <= |s.pushed| && AllWellFormed(s.pushed)
  {
    s.cons.Reading? ==>
      && s.cons.left > 0 && Queue(s) != []
      && s.cons.pos == Pos(s.read + (if s.cons.inBody then HEAD else 0), |s.base|)
      && var b := Queue(s)[0];
         if s.cons.inBody then s.cons.head == HeadBytes(b) && s.cons.body <= b.body
         else s.cons.head <= HeadBytes(b) && s.cons.body == []
  }

  /** From the first unread byte on, the ring holds the unread blocks whole and then what the producer
      has copied so far; and the consumer has copied bytes of the oldest unread block only. */
  ghost predicate Inv(s: State) {
    && PositionsOk(s)
    && AllWellFormed(s.pushed) && s.pulled <= s.pushed
    && |Images(Queue(s))| == s.written - s.read
    && ProducerOk(s)
    && Holds(s.base, s.read, Images(Queue(s)) + Copied(s.prod))
    && ConsumerOk(s)
  }

  lemma InitInv(s: State, size: nat)
    requires Init(s, size) && size > 0
    ensures Inv(s)
  {
  }

  // ----- producer steps keep the invariant -----

  lemma StartInv(s: State, s': State)
    requires Inv(s) && Start(s, s')
    ensures Inv(s')
  {
    hide Slot, Pos, Holds, HeadBytes, Images;
    UsedIsExact(s.read, s.written, |s.base|);
    assert HeadBytes(s'.prod.b)[..0] == [];
  }

  lemma CopyInv(s: State, s': State)
    requires Inv(s) && Copy(s, s')
    ensures Inv(s')
  {
    hide Slot, Pos, Holds, HeadBytes, Images;
    var size, p, data := |s.base|, s.prod, Images(Queue(s)) + Copied(s.prod);
    var x := s.written + (if p.inBody then HEAD else 0);
    SlotWrap(x, p.k, size);
    assert x + p.k == s.read + |data|;
    HoldsPut(s.base, s.read, data, x + p.k, Segment(p)[p.k]);
    HoldsOne(s'.base, x + p.k, Segment(p)[p.k]);
    HoldsJoin(s'.base, s.read, data, [Segment(p)[p.k]]);
    assert p.inBody ==> p.b.body[..p.k + 1] == p.b.body[..p.k] + [p.b.body[p.k]];
    assert !p.inBody ==> HeadBytes(p.b)[..p.k + 1] == HeadBytes(p.b)[..p.k] + [HeadBytes(p.b)[p.k]];
    assert Copied(s'.prod) == Copied(p) + [Segment(p)[p.k]];
    assert data + [Segment(p)[p.k]] == Images(Queue(s)) + Copied(s'.prod);
  }

  lemma ToBodyInv(s: State, s': State)
    requires Inv(s) && ToBody(s, s')
    ensures Inv(s')
  {
    hide Slot, Pos, Holds, HeadBytes, Images;
    PosAdvance(s.written, HEAD, |s.base|);
    var b := s.prod.b;
    assert Copied(s.prod) == HeadBytes(b)[..HEAD] == HeadBytes(b) == HeadBytes(b) + b.body[..0];
  }

  lemma PublishInv(s: State, s': State)
    requires Inv(s) && Publish(s, s')
    ensures Inv(s')
  {
    hide Slot, Pos, Holds, HeadBytes, Images;
    var b, q := s.prod.b, Queue(s);
    PosAdvance(s.written + HEAD, s.prod.k, |s.base|);
    assert Queue(s') == q + [b];
    ImagesAppend(q, b);
    assert b.body[..s.prod.k] == b.body;
    assert Images(Queue(s')) + Copied(s'.prod) == Images(q) + Copied(s.prod);
  }

  lemma WakeInv(s: State, s': State, cap: nat)
    requires Inv(s) && Wake(s, s', cap)
    ensures Inv(s')
  {
    hide Slot, Pos, Holds, HeadBytes, Images;
  }

  // ----- consumer steps keep the invariant -----

  /** Where the oldest unread block lies. */
  lemma FirstUnread(s: State)
    requires Inv(s) && Queue(s) != []
    ensures var b := Queue(s)[0];
            && |Images(Queue(s))| == HEAD + |b.body| + |Images(Queue(s)[1..])|
            && HEAD + |b.body| < |s.base|
            && Holds(s.base, s.read, HeadBytes(b)) && Holds(s.base, s.read + HEAD, b.body)
            && Holds(s.base, s.read + HEAD + |b.body|, Images(Queue(s)[1..]) + Copied(s.prod))
            && HeadLen(HeadBytes(b)) == |b.body| && FromImage(HeadBytes(b), b.body) == b
  {
    hide Slot, Pos, Holds, HeadBytes, HeadLen, FromImage, Images, Copied, ConsumerOk;
    var q, b := Queue(s), Queue(s)[0];
    ImageRoundTrip(b);
    ImagesParts(q);
    SplitHeld(s.base, s.read, HeadBytes(b), b.body, Images(q[1..]), Copied(s.prod));
  }

  lemma ImagesParts(q: seq<Block>)
    requires AllWellFormed(q) && q != []
    ensures Images(q) == HeadBytes(q[0]) + q[0].body + Images(q[1..])
  {
    hide HeadBytes;
  }

  lemma SplitHeld(base: bytes, x: nat, a: bytes, b: bytes, c: bytes, d: bytes)
    requires |base| > 0 && Holds(base, x, a + b + c + d)
    ensures Holds(base, x, a) && Holds(base, x + |a|, b) && Holds(base, x + |a| + |b|, c + d)
  {
    hide Holds;
    Associate(a + b, c, d);
    Associate(a, b, c + d);
    HoldsJoin(base, x, a, b + (c + d));
    HoldsJoin(base, x + |a|, b, c + d);
  }

  lemma HandlerInv(s: State, s': State)
    requires Inv(s) && (HandlerRuns(s, s') || Look(s, s'))
    ensures Inv(s')
  {
    hide Slot, Pos, Holds, HeadBytes;
    UsedIsExact(s.read, s.written, |s.base|);
  }

  /** The next byte copied out of stored data is the data's next byte. */
  lemma NextByte(base: bytes, x: nat, data: bytes, k: nat)
    requires Holds(base, x, data) && k < |data| && k < |base|
    ensures base[Wrap(Pos(x, |base|), k, |base|)] == data[k]
  {
    hide Slot, Pos;
    SlotWrap(x, k, |base|);
    assert base[Slot(x + k, |base|)] == data[k];
  }

  lemma ReadHeadInv(s: State, s': State)
    requires Inv(s) && ReadHead(s, s')
    ensures Inv(s')
  {
    hide Slot, Pos, HeadBytes, HeadLen, Images, FromImage, Holds, Copied;
    FirstUnread(s);
    NextByte(s.base, s.read, HeadBytes(Queue(s)[0]), |s.cons.head|);
  }

  lemma ReadBodyInv(s: State, s': State)
    requires Inv(s) && ReadBody(s, s')
    ensures Inv(s')
  {
    hide Slot, Pos, HeadBytes, HeadLen, Images, FromImage, Holds, Copied;
    FirstUnread(s);
    NextByte(s.base, s.read + HEAD, Queue(s)[0].body, |s.cons.body|);
  }

  lemma HeadReadInv(s: State, s': State)
    requires Inv(s) && HeadRead(s, s')
    ensures Inv(s')
  {
    hide Slot, Pos, Holds, HeadBytes, Images;
    PosAdvance(s.read, HEAD, |s.base|);
  }

  /** The pulled block is the oldest published one, header and body intact. */
  lemma PulledInv(s: State, s': State)
    requires Inv(s) && Pulled(s, s')
    ensures Inv(s') && s'.pulled == s.pulled + [Queue(s)[0]] && Queue(s') == Queue(s)[1..]
  {
    hide Slot, Pos, Holds, HeadBytes, HeadLen, Images, FromImage, Copied;
    FirstUnread(s);
    PosAdvance(s.read + HEAD, |s.cons.body|, |s.base|);
    assert s.cons.body == Queue(s)[0].body;
    assert Queue(s') == Queue(s)[1..];
  }

  lemma StepInv(s: State, s': State, cap: nat)
    requires Inv(s) && Step(s, s', cap)
    ensures Inv(s')
  {
    hide Inv, Start, Copy, ToBody, Publish, Wake, HandlerRuns, Look, ReadHead, HeadRead, ReadBody, Pulled;
    if Start(s, s') {
      StartInv(s, s');
    } else if Copy(s, s') {
      CopyInv(s, s');
    } else if ToBody(s, s') {
      ToBodyInv(s, s');
    } else if Publish(s, s') {
      PublishInv(s, s');
    } else if Wake(s, s', cap) {
      WakeInv(s, s', cap);
    } else if HandlerRuns(s, s') || Look(s, s') {
      HandlerInv(s, s');
    } else if HeadRead(s, s') {
      HeadReadInv(s, s');
    } else if Pulled(s, s') {
      PulledInv(s, s');
    } else if ReadHead(s, s') {
      ReadHeadInv(s, s');
    } else {
      ReadBodyInv(s, s');
    }
  }

  lemma {:induction false} RunInv(run: seq<State>, size: nat, cap: nat, i: nat)
    requires Run(run, size, cap) && size > 0 && i < |run|
    ensures Inv(run[i]) && |run[i].base| == size
  {
    hide Inv;
    if i == 0 {
      InitInv(run[0], size);
    } else {
      RunInv(run, size, cap, i - 1);
      assert Step(run[i - 1], run[i - 1 + 1], cap);
      StepInv(run[i - 1], run[i], cap);
    }
  }

  lemma ReachableInv(s: State, size: nat, cap: nat)
    requires Reachable(s, size, cap) && size > 0
    ensures Inv(s) && |s.base| == size
  {
    hide Inv, Step;
    var run :| Run(run, size, cap) && run[|run| - 1] == s;
    RunInv(run, size, cap, |run| - 1);
  }

  // ----- what follows for every interleaving -----

  /** First in, first out, nothing lost, nothing torn: at every moment of every run the blocks pulled are
      a prefix of the blocks pushed, and the rest lies in the ring whole. */
  lemma PulledIsPrefixOfPushed(s: State, size: nat, cap: nat)
    requires Reachable(s, size, cap) && size > 0
    ensures s.pulled <= s.pushed && AllWellFormed(Queue(s)) && s.pushed == s.pulled + Queue(s)
    ensures Holds(s.base, s.read, Images(Queue(s))) && |Images(Queue(s))| < size
  {
    ReachableInv(s, size, cap);
    hide Holds, Images;
    HoldsJoin(s.base, s.read, Images(Queue(s)), Copied(s.prod));
  }

  /** No step of any run overwrites a byte that has been published and not yet pulled. */
  lemma UnreadBytesSurvive(s: State, s': State, size: nat, cap: nat)
    requires Reachable(s, size, cap) && size > 0 && Step(s, s', cap)
    ensures s.pulled <= s.pushed && AllWellFormed(Queue(s)) && Holds(s'.base, s.read, Images(Queue(s)))
  {
    ReachableInv(s, size, cap);
    hide Holds, Images, Slot, HeadBytes, HeadLen, FromImage, Pos;
    var data := Images(Queue(s)) + Copied(s.prod);
    HoldsJoin(s.base, s.read, Images(Queue(s)), Copied(s.prod));
    if Copy(s, s') {
      CopyInv(s, s');
      assert Queue(s') == Queue(s);
      HoldsJoin(s'.base, s.read, Images(Queue(s)), Copied(s'.prod));
    }
  }

  /** Neither process ever gets stuck: a copy in progress always has its next step. */
  lemma NeverStuck(s: State, size: nat, cap: nat)
    requires Reachable(s, size, cap) && size > 0
    ensures s.prod.Writing? ==> exists s' :: ProducerStep(s, s', cap)
    ensures !s.cons.Asleep? ==> exists s' :: ConsumerStep(s, s')
  {
    hide Inv;
    ReachableInv(s, size, cap);
    if s.prod.Writing? {
      ProducerMoves(s, cap);
    }
    if !s.cons.Asleep? {
      ConsumerMoves(s);
    }
  }

  lemma ProducerMoves(s: State, cap: nat)
    requires Inv(s) && s.prod.Writing?
    ensures exists s' :: ProducerStep(s, s', cap)
  {
    hide Holds, Images, Slot, HeadBytes, Pos, Copied, ConsumerOk;
    var size, p := |s.base|, s.prod;
    if p.k < |Segment(p)| {
      var s' := s.(base := s.base[Wrap(p.pos, p.k, size) := Segment(p)[p.k]], prod := p.(k := p.k + 1));
      assert Copy(s, s');
      assert ProducerStep(s, s', cap);
    } else if !p.inBody {
      var s' := s.(prod := Writing(p.b, true, Advance(p.pos, HEAD, size), 0));
      assert ToBody(s, s');
      assert ProducerStep(s, s', cap);
    } else {
      var s' := s.(w := Advance(p.pos, p.k, size), prod := Waking,
                   pushed := s.pushed + [p.b], written := s.written + HEAD + p.k);
      assert Publish(s, s');
      assert ProducerStep(s, s', cap);
    }
  }

  lemma ConsumerMoves(s: State)
    requires Inv(s) && !s.cons.Asleep?
    ensures exists s' :: ConsumerStep(s, s')
  {
    hide Holds, Images, Slot, HeadBytes, HeadLen, FromImage, Pos, Copied, ProducerOk;
    var size, c := |s.base|, s.cons;
    if c.Looking? {
      var s' := s.(cons := if c.left == 0 || Used(s.w, s.r, size) == 0 then Asleep
                   else Reading(c.left, false, s.r, [], []));
      assert Look(s, s');
      assert ConsumerStep(s, s');
    } else {
      FirstUnread(s);
      if !c.inBody && |c.head| < HEAD {
        var s' := s.(cons := c.(head := c.head + [s.base[Wrap(c.pos, |c.head|, size)]]));
        assert ReadHead(s, s');
        assert ConsumerStep(s, s');
      } else if !c.inBody {
        var s' := s.(cons := c.(inBody := true, pos := Advance(c.pos, HEAD, size)));
        assert HeadRead(s, s');
        assert ConsumerStep(s, s');
      } else if |c.body| < HeadLen(c.head) {
        var s' := s.(cons := c.(body := c.body + [s.base[Wrap(c.pos, |c.body|, size)]]));
        assert ReadBody(s, s');
        assert ConsumerStep(s, s');
      } else {
        var s' := s.(r := Advance(c.pos, |c.body|, size), cons := Looking(c.left - 1),
                     pulled := s.pulled + [FromImage(c.head, c.body)], read := s.read + HEAD + |c.body|);
        assert Pulled(s, s');
        assert ConsumerStep(s, s');
      }
    }
  }

  // ----- wake-ups -----

  function PullsLeft(c: Consumer): nat {
    match c
    case Asleep => 0
    case Looking(left) => left
    case Reading(left, _, _, _, _) => left
  }

  /** Every unread block is accounted for: by a byte in the pipe, by the write about to happen, or by a
      pull the running handler still makes. */
  ghost predicate Accounted(s: State, cap: nat) {
    && s.pulled <= s.pushed
    && s.pipe <= cap
    && |Queue(s)| <= s.pipe + (if s.prod.Waking? then 1 else 0) + PullsLeft(s.cons)
  }

  /** A ring of this size never holds more unread blocks than the pipe takes bytes. */
  predicate PipeSuffices(size: nat, cap: nat) {
    size <= HEAD * cap + HEAD
  }

  /** At least sixteen bytes a block, and an empty ring is seen as empty. */
  lemma QueueNumbers(s: State)
    requires Inv(s)
    ensures s.pulled <= s.pushed && HEAD * |Queue(s)| < |s.base|
    ensures Used(s.w, s.r, |s.base|) == 0 ==> Queue(s) == []
  {
    ImagesLength(Queue(s));
    hide Slot, Pos, Holds, HeadBytes, Images, Copied, ProducerOk, ConsumerOk;
    UsedIsExact(s.read, s.written, |s.base|);
  }

  lemma AccountedStep(s: State, s': State, cap: nat)
    requires Inv(s) && Inv(s') && Step(s, s', cap) && Accounted(s, cap) && PipeSuffices(|s.base|, cap)
    ensures Accounted(s', cap)
  {
    hide Inv, Slot, Pos, Holds, HeadBytes, HeadLen, FromImage, Segment, Wrap, Advance;
    QueueNumbers(s);
    QueueNumbers(s');
    if Pulled(s, s') {
      PulledInv(s, s');
    }
  }

  lemma {:induction false} RunAccounted(run: seq<State>, size: nat, cap: nat, i: nat)
    requires Run(run, size, cap) && size > 0 && i < |run| && PipeSuffices(size, cap)
    ensures Accounted(run[i], cap)
  {
    hide Inv;
    if i > 0 {
      RunAccounted(run, size, cap, i - 1);
      RunInv(run, size, cap, i - 1);
      RunInv(run, size, cap, i);
      assert Step(run[i - 1], run[i - 1 + 1], cap);
      hide Step, Accounted;
      AccountedStep(run[i - 1], run[i], cap);
    }
  }

  /** Unread blocks, and nothing left that would make the handler run. */
  ghost predicate Lost(s: State) {
    s.prod.Idle? && s.cons.Asleep? && s.pipe == 0 && s.pulled < s.pushed
  }

  /** If the pipe takes a byte for every block the ring can hold, no wake-up is ever lost. */
  lemma NoLostWakeup(s: State, size: nat, cap: nat)
    requires Reachable(s, size, cap) && size > 0 && PipeSuffices(size, cap)
    ensures Accounted(s, cap) && !Lost(s)
  {
    hide Step, Init;
    var run :| Run(run, size, cap) && run[|run| - 1] == s;
    RunAccounted(run, size, cap, |run| - 1);
  }
}
