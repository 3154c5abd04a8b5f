/** One direction of a channel in shmq.cpp: the ring, the overflow list in front of it, and the wake-up
    pipe. recv_push, pruge_recv and recv_pull; the send_ functions are the same code on the other ring. */
module ShmQueue {
  import opened Bytes
  import opened ShmBlock
  import opened ShmRing

  /** The bytes a ring of the given size needs for these blocks, one always staying free. */
  ghost predicate Fits(queue: seq<Block>, size: nat)
    requires forall i :: 0 <= i < |queue| ==> WellFormed(queue[i])
  {
    |Images(queue)| + 1 <= size
  }

  lemma {:induction false} ImagesPrefix(a: seq<Block>, b: seq<Block>)
    requires forall i :: 0 <= i < |a| ==> WellFormed(a[i])
    requires forall i :: 0 <= i < |b| ==> WellFormed(b[i])
    ensures (forall i :: 0 <= i < |a + b| ==> WellFormed((a + b)[i])) && |Images(a + b)| == |Images(a)| + |Images(b)|
  {
    if a == [] {
      assert a + b == b;
    } else {
      ImagesPrefix(a[1..], b);
      assert (a + b)[1..] == a[1..] + b;
    }
  }

  /** The first listed block, if any, does not fit the ring. */
  ghost predicate Blocked(queue: seq<Block>, list: seq<Block>, size: nat)
    requires forall i :: 0 <= i < |queue| ==> WellFormed(queue[i])
    requires forall i :: 0 <= i < |list| ==> WellFormed(list[i])
  {
    list != [] ==> !Fits(queue + [list[0]], size)
  }

  lemma StillBlocked(queue: seq<Block>, list: seq<Block>, sb: Block, size: nat)
    requires forall i :: 0 <= i < |queue| ==> WellFormed(queue[i])
    requires forall i :: 0 <= i < |list| ==> WellFormed(list[i])
    requires WellFormed(sb) && Blocked(queue, list, size) && (list == [] ==> !Fits(queue + [sb], size))
    ensures Blocked(queue, list + [sb], size)
  {
  }

  function Capped(n: nat, cap: nat): nat {
    if n <= cap then n else cap
  }

  class Channel {
    const ring: Ring
    const pipeCapacity: nat
    var pushList: seq<Block>
    var pipe: nat

    ghost predicate Valid()
      reads this, ring, ring.base
    {
      && ring.Valid()
      && pipe <= pipeCapacity
      && (forall i :: 0 <= i < |pushList| ==> WellFormed(pushList[i]) && |pushList[i].body| < ring.size)
    }

    /** Everything accepted and not yet pulled, in order. */
    ghost function Queue(): (q: seq<Block>)
      reads this, ring, ring.base
      requires Valid()
      ensures forall i :: 0 <= i < |q| ==> WellFormed(q[i])
    {
      ring.queue + pushList
    }

    constructor (size: nat, pipeCapacity: nat)
      requires 0 < size < TWO31
      ensures Valid() && Queue() == [] && ring.size == size && fresh(ring) && fresh(ring.base)
    {
      ring := new Ring(size);
      this.pipeCapacity := pipeCapacity;
      pushList, pipe := [], 0;
    }

    /** The first listed block is too large for any state of the ring. */
    predicate Stuck()
      reads this, ring
    {
      pushList != [] && HEAD + |pushList[0].body| + 1 > ring.size
    }

    /** write_pipe: one byte, dropped when the pipe is full. */
    method WritePipe()
      requires Valid()
      modifies this`pipe
      ensures Valid() && pipe == Capped(old(pipe) + 1, pipeCapacity)
    {
      if pipe < pipeCapacity {
        pipe := pipe + 1;
      }
    }

    /** pruge_recv: moves listed blocks into the ring while they fit. The sequence as a whole never
        changes; the list is emptied exactly when everything fits the ring; and a block too large for
        any ring state stays at the front of the list, with all behind it. */
    method Pruge() returns (ret: int)
      requires Valid()
      modifies this, ring, ring.base
      ensures Valid() && Queue() == old(Queue())
      ensures ret == if Fits(Queue(), ring.size) then 0 else -1
      ensures ret == 0 <==> pushList == []
      ensures |ring.queue| >= |old(ring.queue)|
              && pipe == Capped(old(pipe) + |ring.queue| - |old(ring.queue)|, pipeCapacity)
      ensures Blocked(ring.queue, pushList, ring.size)
      ensures old(Stuck()) ==> ret == -1 && pushList == old(pushList) && ring.queue == old(ring.queue)
    {
      hide Images;
      while pushList != []
        invariant Valid() && Queue() == old(Queue())
        invariant |ring.queue| >= |old(ring.queue)|
        invariant pipe == Capped(old(pipe) + |ring.queue| - |old(ring.queue)|, pipeCapacity)
        invariant old(Stuck()) ==> pushList == old(pushList) && ring.queue == old(ring.queue)
        decreases |pushList|
      {
        var front := pushList[0];
        ghost var q := ring.queue;
        FitsFront(q, pushList, ring.size);
        FitsNext(q, front, ring.size);
        var r := ring.Push(front);
        if r == 0 {
          WritePipe();
          assert q + pushList == q + [front] + pushList[1..];
          pushList := pushList[1..];
        } else {
          return -1;
        }
      }
      assert ring.queue + [] == ring.queue;
      return 0;
    }

    /** recv_push: listed blocks first; then the block itself into the ring if the list is empty and it
        fits; otherwise a safe block joins the list and an unsafe one is dropped. */
    method RecvPush(sb: Block, safe: bool) returns (ret: int)
      requires Valid() && WellFormed(sb)
      modifies this, ring, ring.base
      ensures Valid()
      // Accepted at the very end of the sequence, or dropped: never anywhere else, and nothing else moves.
      ensures var accepted := |sb.body| < ring.size && (safe || Fits(old(Queue()) + [sb], ring.size));
              Queue() == if accepted then old(Queue()) + [sb] else old(Queue())
      // Every block that enters the ring writes its wake-up byte, as far as the pipe takes it.
      ensures |ring.queue| >= |old(ring.queue)|
              && pipe == Capped(old(pipe) + |ring.queue| - |old(ring.queue)|, pipeCapacity)
      // Nothing waits that the ring could take.
      ensures Blocked(ring.queue, pushList, ring.size)
      // Behind a block that never fits nothing moves.
      ensures old(Stuck()) ==> ring.queue == old(ring.queue)
                               && (pushList == old(pushList) || pushList == old(pushList) + [sb])
      // The return value: a dropped unsafe block is still reported as 0 when the list could be emptied.
      ensures ret == if |sb.body| >= ring.size || (!safe && !Fits(old(Queue()), ring.size)) then -1 else 0
    {
      hide Images, Fits, Blocked, Holds, Pos;
      ret := Pruge();
      if |sb.body| >= ring.size {
        return -1;
      }
      if ret == 0 {
        var r := PushAndWake(sb);
        if r == 0 {
          return 0;
        }
      }
      FitsNext(Queue(), sb, ring.size);
      if !safe {
        return ret;
      }
      AddToList(sb);
      return 0;
    }

    /** The attempt on the ring, with the wake-up byte of a success. */
    method PushAndWake(sb: Block) returns (r: int)
      requires Valid() && WellFormed(sb) && |sb.body| < ring.size && pushList == []
      modifies this`pipe, ring, ring.base
      ensures Valid() && r == if Fits(old(Queue()) + [sb], ring.size) then 0 else 1
      ensures Queue() == if r == 0 then old(Queue()) + [sb] else old(Queue())
      ensures |ring.queue| == |old(ring.queue)| + (1 - r) && pipe == Capped(old(pipe) + 1 - r, pipeCapacity)
      ensures Blocked(ring.queue, pushList, ring.size) && (r == 1 ==> !Fits(ring.queue + [sb], ring.size))
    {
      FitsNext(Queue(), sb, ring.size);
      assert ring.queue + [] == ring.queue;
      r := ring.Push(sb);
      assert ring.queue + [] == ring.queue;
      if r == 0 {
        WritePipe();
      }
    }

    method AddToList(sb: Block)
      requires Valid() && WellFormed(sb) && |sb.body| < ring.size && Blocked(ring.queue, pushList, ring.size)
      requires pushList == [] ==> !Fits(ring.queue + [sb], ring.size)
      modifies this`pushList
      ensures Valid() && Queue() == old(Queue()) + [sb] && Blocked(ring.queue, pushList, ring.size)
      ensures pushList == old(pushList) + [sb]
    {
      StillBlocked(ring.queue, pushList, sb, ring.size);
      assert ring.queue + (pushList + [sb]) == ring.queue + pushList + [sb];
      pushList := pushList + [sb];
    }

    /** recv_pull: the oldest block of the ring. */
    method RecvPull() returns (ret: int, block: Option<Block>)
      requires Valid()
      modifies ring
      ensures Valid()
      ensures ret == 0 ==> old(Queue()) != [] && block == Some(old(Queue())[0]) && Queue() == old(Queue())[1..]
      ensures ret == 0 <==> old(ring.queue) != []
      ensures ret != 0 ==> ret == 1 && block == None && Queue() == old(Queue())
      ensures ring.queue == if ret == 0 then old(ring.queue)[1..] else []
      ensures ret == 0 ==> block == Some(old(ring.queue)[0])
    {
      ghost var q := ring.queue;
      ret, block := ring.Pull();
      if ret == 0 {
        assert (q + pushList)[1..] == q[1..] + pushList;
      }
    }
  }

  /** One call on the channel. */
  datatype Op = Push(sb: Block, safe: bool) | Purge | Pull

  /** The blocks taken of those the calls push, in order: every safe one shorter than the ring, and some unsafe ones. */
  predicate Takes(taken: seq<Block>, ops: seq<Op>, size: nat) {
    if ops == [] then taken == []
    else
      var n, op := |ops| - 1, ops[|ops| - 1];
      || ((op.Push? && op.safe ==> |op.sb.body| >= size) && Takes(taken, ops[..n], size))
      || (op.Push? && |op.sb.body| < size && taken != [] && taken[|taken| - 1] == op.sb
          && Takes(taken[..|taken| - 1], ops[..n], size))
  }

  lemma TakesOn(taken: seq<Block>, ops: seq<Op>, n: nat, size: nat, more: seq<Block>)
    requires n < |ops| && Takes(taken, ops[..n], size)
    requires more == [] || (ops[n].Push? && more == [ops[n].sb])
    requires ops[n].Push? ==> if |ops[n].sb.body| >= size then more == [] else ops[n].safe ==> more != []
    ensures Takes(taken + more, ops[..n + 1], size)
  {
    var now := ops[..n + 1];
    assert now[|now| - 1] == ops[n] && now[..n] == ops[..n];
    if more == [] {
      assert taken + more == taken;
    } else {
      assert (taken + more)[..|taken|] == taken;
    }
  }

  /** Whole runs of calls: the channel is one first-in first-out queue, whatever moves between list and ring. Once the
      first listed block is one that never fits, it stays there for ever with all behind it, and only the blocks then
      in the ring are ever pulled. */
  method Drive(c: Channel, ops: seq<Op>) returns (pulled: seq<Block>, ghost taken: seq<Block>)
    requires c.Valid() && forall op :: op in ops && op.Push? ==> WellFormed(op.sb)
    modifies c, c.ring, c.ring.base
    ensures c.Valid() && Takes(taken, ops, c.ring.size) && pulled + c.Queue() == old(c.Queue()) + taken
    ensures old(c.Stuck()) ==> c.Stuck() && old(c.pushList) <= c.pushList && pulled + c.ring.queue == old(c.ring.queue)
  {
    hide Takes, Fits, Blocked, Images, Holds, Pos;
    pulled, taken := [], [];
    NothingTaken(c.ring.size);
    assert ops[..0] == [] && [] + c.Queue() == c.Queue() + [] && [] + c.ring.queue == c.ring.queue + [];
    assert old(c.ring.queue) + [] == old(c.ring.queue);
    for n := 0 to |ops|
      invariant c.Valid() && Takes(taken, ops[..n], c.ring.size) && pulled + c.Queue() == old(c.Queue()) + taken
      invariant old(c.Stuck()) ==> c.Stuck() && old(c.pushList) <= c.pushList
                                   && pulled + c.ring.queue == old(c.ring.queue)
    {
      assert ops[n] in ops;
      ghost var before, held := c.Queue(), c.ring.queue;
      var block, more := Call(c, ops[n]);
      Fifo(pulled, block, before, c.Queue(), old(c.Queue()), taken, more);
      TakesOn(taken, ops, n, c.ring.size, more);
      if old(c.Stuck()) {
        Fifo(pulled, block, held, c.ring.queue, old(c.ring.queue), [], []);
      }
      pulled, taken := pulled + block, taken + more;
    }
    assert ops[..|ops|] == ops;
  }

  /** One call: what is pulled, and what is taken. */
  method Call(c: Channel, op: Op) returns (pulled: seq<Block>, ghost taken: seq<Block>)
    requires c.Valid() && (op.Push? ==> WellFormed(op.sb))
    modifies c, c.ring, c.ring.base
    ensures c.Valid() && pulled + c.Queue() == old(c.Queue()) + taken
    ensures taken == [] || (op.Push? && taken == [op.sb])
    ensures op.Push? ==> if |op.sb.body| >= c.ring.size then taken == [] else op.safe ==> taken != []
    ensures old(c.Stuck()) ==> c.Stuck() && old(c.pushList) <= c.pushList && pulled + c.ring.queue == old(c.ring.queue)
  {
    hide Takes, Fits, Blocked, Images, Holds, Pos;
    pulled, taken := [], [];
    ghost var before, q := c.Queue(), c.ring.queue;
    match op
    case Push(sb, safe) =>
      var _ := c.RecvPush(sb, safe);
      taken := if c.Queue() == before + [sb] then [sb] else [];
      assert [] + c.Queue() == c.Queue() && before + [] == before && [] + c.ring.queue == c.ring.queue;
    case Purge =>
      var _ := c.Pruge();
      assert [] + c.Queue() == c.Queue() && before + [] == before && [] + c.ring.queue == c.ring.queue;
    case Pull =>
      var ret, block := c.RecvPull();
      if ret == 0 {
        pulled := [block.value];
        assert before == [before[0]] + before[1..] && q == [q[0]] + q[1..] && before + [] == before;
      } else {
        assert [] + c.Queue() == c.Queue() && before + [] == before && [] + c.ring.queue == c.ring.queue;
      }
  }

  lemma Fifo(pulled: seq<Block>, block: seq<Block>, q: seq<Block>, q': seq<Block>, start: seq<Block>, taken: seq<Block>,
             more: seq<Block>)
    requires pulled + q == start + taken && block + q' == q + more
    ensures pulled + block + q' == start + (taken + more)
  {
    assert pulled + block + q' == pulled + (q + more) == pulled + q + more;
  }

  lemma NothingTaken(size: nat)
    ensures Takes([], [], size)
  {
  }

  lemma FitsFront(q: seq<Block>, list: seq<Block>, size: nat)
    requires forall i :: 0 <= i < |q| ==> WellFormed(q[i])
    requires list != [] && forall i :: 0 <= i < |list| ==> WellFormed(list[i])
    ensures forall i :: 0 <= i < |q + list| ==> WellFormed((q + list)[i])
    ensures |Images(q)| + HEAD + |list[0].body| + 1 > size ==> !Fits(q + list, size)
  {
    ImagesPrefix(q, list);
  }

  lemma FitsNext(q: seq<Block>, b: Block, size: nat)
    requires (forall i :: 0 <= i < |q| ==> WellFormed(q[i])) && WellFormed(b)
    ensures forall i :: 0 <= i < |q + [b]| ==> WellFormed((q + [b])[i])
    ensures Fits(q + [b], size) <==> |Images(q)| + HEAD + |b.body| + 1 <= size
    ensures Fits(q + [b], size) ==> Fits(q, size)
  {
    ImagesAppend(q, b);
  }
}
