/** The send side of c_tcp_socket (tcp_socket.cpp): what the kernel does not take at once is kept in a
    list of fixed-size buffers. c_tcp_linker is the same code without the limit on the list. */
module SendList {
  import opened Bytes

  /** BUF_LEN: 8192 less the length field. */
  const BUF_LEN := 8188
  const MAX_SEND_LIST_SIZE := 1024

  /** What send made of the bytes offered: some taken, none for now, or a dead connection. */
  datatype Sent = Took(n: nat) | Later | Broken

  /** The kernel's answer to an offer of n bytes. */
  function Answer(k: Sent, n: nat): (r: Sent)
    requires n > 0
    ensures r.Took? ==> 0 < r.n <= n
  {
    if !k.Took? then k else if k.n == 0 then Later else if k.n <= n then k else Took(n)
  }

  /** What becomes of a list from pos on when the kernel answers in turn, and takes nothing after its last answer: the
      bytes taken, and the answer that ends it, or None when the list runs empty. */
  datatype Drain = Drain(taken: nat, stop: Option<Sent>)

  function Drains(list: seq<bytes>, pos: nat, answers: seq<Sent>): Drain
    requires Packed(list) && (list != [] ==> pos < |list[0]|)
    decreases |answers|
  {
    if list == [] then Drain(0, None)
    else if answers == [] then Drain(0, Some(Later))
    else
      var r := Answer(answers[0], |list[0]| - pos);
      if !r.Took? then Drain(0, Some(r))
      else
        var d := if pos + r.n == |list[0]| then Drains(list[1..], 0, answers[1..])
            else Drains(list, pos + r.n, answers[1..]);
        Drain(r.n + d.taken, d.stop)
  }

  /** How a call leaves the connection: alive, closed with everything sent, or torn down on an error. */
  datatype Outcome = Alive | Flushed | Failed

  /** All buffers but the last are full; none is empty. */
  predicate Packed(list: seq<bytes>) {
    forall i :: 0 <= i < |list| ==> 0 < |list[i]| <= BUF_LEN && (i < |list| - 1 ==> |list[i]| == BUF_LEN)
  }

  lemma ConcatLast(list: seq<bytes>, x: bytes)
    requires list != []
    ensures var n := |list| - 1; Concat(list[n := list[n] + x]) == Concat(list) + x
  {
    var n := |list| - 1;
    var a, b := list[..n], list[n];
    ConcatOne(b);
    ConcatOne(b + x);
    ConcatAppend(a, [b]);
    ConcatAppend(a, [b + x]);
    assert list == a + [b] && list[n := b + x] == a + [b + x];
    assert Concat(a) + (b + x) == Concat(a) + b + x;
  }

  lemma ConcatOne(b: bytes)
    ensures Concat([b]) == b
  {
    var one := [b];
    assert one[1..] == [] && b + Concat(one[1..]) == b;
  }

  lemma ConcatNone()
    ensures Concat<byte>([]) == []
  {
  }

  lemma ConcatSnoc(list: seq<bytes>, b: bytes)
    ensures Concat(list + [b]) == Concat(list) + b
  {
    ConcatAppend(list, [b]);
    ConcatOne(b);
  }

  lemma Piece(front: bytes, buf: bytes, p: nat, size: nat)
    requires p + size <= |buf|
    ensures front + buf[..p] + buf[p..p + size] == front + buf[..p + size]
  {
  }

  /** Conservation: the bytes sent, followed by the list's bytes from pos on, are the accepted packets. */
  ghost predicate Conserved(sent: bytes, list: seq<bytes>, pos: nat, accepted: seq<bytes>) {
    pos <= |Concat(list)| && sent + Concat(list)[pos..] == Concat(accepted)
  }

  lemma ConservedAppend(sent: bytes, list: seq<bytes>, pos: nat, accepted: seq<bytes>, list': seq<bytes>, buf: bytes)
    requires Conserved(sent, list, pos, accepted) && Concat(list') == Concat(list) + buf
    ensures Conserved(sent, list', pos, accepted + [buf])
  {
    ConcatSnoc(accepted, buf);
    hide Concat;
    DropOfSum(Concat(list), buf, pos);
    Associate(sent, Concat(list)[pos..], buf);
  }

  lemma DropOfSum(a: bytes, b: bytes, pos: nat)
    requires pos <= |a|
    ensures (a + b)[pos..] == a[pos..] + b
  {
  }

  /** An empty list: what the kernel takes is sent, the rest becomes the list. */
  lemma ConservedDirect(sent: bytes, accepted: seq<bytes>, buf: bytes, n: nat, list': seq<bytes>)
    requires Conserved(sent, [], 0, accepted) && n <= |buf| && Concat(list') == buf[n..]
    ensures Conserved(sent + buf[..n], list', 0, accepted + [buf])
  {
    ConcatSnoc(accepted, buf);
    assert sent + Concat([])[0..] == sent;
    hide Concat;
    assert Concat(list')[0..] == buf[n..] && buf == buf[..n] + buf[n..];
    assert sent + buf[..n] + buf[n..] == sent + (buf[..n] + buf[n..]);
  }

  /** Bytes taken from the front buffer move from the list to what has been sent. */
  lemma ConservedTook(sent: bytes, list: seq<bytes>, pos: nat, accepted: seq<bytes>, n: nat)
    requires Conserved(sent, list, pos, accepted) && list != [] && pos + n <= |list[0]|
    ensures var sent' := sent + list[0][pos..][..n];
            && (pos + n == |list[0]| ==> Conserved(sent', list[1..], 0, accepted)
                                         && |Concat(list[1..])| == |Concat(list)| - (pos + n))
            && Conserved(sent', list, pos + n, accepted)
  {
    var b, more, w := list[0], Concat(list[1..]), Concat(list)[pos..];
    assert Concat(list) == b + more;
    hide Concat;
    var sent' := sent + b[pos..][..n];
    assert w == b[pos..][..n] + w[n..] && w[n..] == Concat(list)[pos + n..];
    assert sent' + w[n..] == sent + w;
    if pos + n == |b| {
      assert w[n..] == more == more[0..];
    }
  }

  lemma ConservedPrefix(sent: bytes, list: seq<bytes>, pos: nat, accepted: seq<bytes>)
    requires Conserved(sent, list, pos, accepted)
    ensures sent <= Concat(accepted)
  {
  }

  function From(answers: seq<Sent>, i: nat): seq<Sent> {
    if i <= |answers| then answers[i..] else []
  }

  function After(taken: nat, d: Drain): Drain {
    d.(taken := taken + d.taken)
  }

  /** One send: the answer it gets, and what becomes of the rest. */
  lemma DrainsStep(list: seq<bytes>, pos: nat, answers: seq<Sent>, i: nat)
    requires Packed(list) && list != [] && pos < |list[0]|
    ensures var r := Answer(if i < |answers| then answers[i] else Later, |list[0]| - pos);
            Drains(list, pos, From(answers, i)) ==
            if !r.Took? then Drain(0, Some(r))
            else After(r.n, if pos + r.n == |list[0]| then Drains(list[1..], 0, From(answers, i + 1))
                            else Drains(list, pos + r.n, From(answers, i + 1)))
  {
    if i < |answers| {
      assert answers[i..][0] == answers[i] && answers[i..][1..] == answers[i + 1..];
    }
  }

  /** Never more is taken than waits, and the list runs empty exactly when all of it is taken. */
  lemma {:induction false} DrainsExactly(list: seq<bytes>, pos: nat, answers: seq<Sent>)
    requires Packed(list) && (if list == [] then pos == 0 else pos < |list[0]|)
    ensures var d, waits := Drains(list, pos, answers), |Concat(list)| - pos;
            d.taken <= waits && (d.stop.None? <==> d.taken == waits)
    decreases |answers|
  {
    if list != [] {
      assert |Concat(list)| == |list[0]| + |Concat(list[1..])|;
      if answers != [] {
        var r := Answer(answers[0], |list[0]| - pos);
        if r.Took? && pos + r.n == |list[0]| {
          DrainsExactly(list[1..], 0, answers[1..]);
        } else if r.Took? {
          DrainsExactly(list, pos + r.n, answers[1..]);
        }
      }
    }
  }

  /** Why sending stops: the kernel takes something at each of the first k calls; the next finds the connection broken
      exactly when it says so, and takes nothing for now otherwise. */
  lemma {:induction false} DrainsStop(list: seq<bytes>, pos: nat, answers: seq<Sent>) returns (k: nat)
    requires Packed(list) && (if list == [] then pos == 0 else pos < |list[0]|)
    ensures k <= |answers| && forall i :: 0 <= i < k ==> answers[i].Took? && answers[i].n > 0
    ensures var d := Drains(list, pos, answers);
            && (d.stop == Some(Broken) ==> k < |answers| && answers[k] == Broken)
            && (d.stop == Some(Later) ==> k < |answers| ==> answers[k] == Later || answers[k] == Took(0))
            && (d.stop.Some? ==> d.stop.value == Broken || d.stop.value == Later)
    decreases |answers|
  {
    k := 0;
    if list != [] && answers != [] {
      var r := Answer(answers[0], |list[0]| - pos);
      if r.Took? {
        var done := pos + r.n == |list[0]|;
        k := DrainsStop(if done then list[1..] else list, if done then 0 else pos + r.n, answers[1..]);
        k := k + 1;
      }
    }
  }

  lemma DrainsNothing(answers: seq<Sent>)
    ensures Drains([], 0, answers) == Drain(0, None)
  {
  }

  lemma ConservedEmpty(sent: bytes, accepted: seq<bytes>)
    ensures Conserved(sent, [], 0, accepted) <==> sent == Concat(accepted)
  {
    var none: seq<bytes> := [];
    assert sent + Concat(none)[0..] == sent;
  }

  class Sender {
    /** The limit on the list, or None for c_tcp_linker, which has none. */
    const limit: Option<nat>
    var sendList: seq<bytes>
    var sendPos: nat
    var sendListSize: nat
    var writeInterest: bool
    var isClosed: bool

    /** Every byte the kernel has taken, and every packet accepted, in order. */
    ghost var sent: bytes
    ghost var accepted: seq<bytes>

    ghost predicate ListOk()
      reads this
    {
      && Packed(sendList) && sendListSize == |sendList|
      && (if sendList == [] then sendPos == 0 else sendPos < |sendList[0]|)
    }

    /** Nothing is lost, duplicated or reordered, and EPOLLOUT is asked for exactly while bytes wait. */
    ghost predicate Valid()
      reads this
    {
      && ListOk()
      && Conserved(sent, sendList, sendPos, accepted)
      && (writeInterest <==> sendList != [])
    }

    constructor (limit: Option<nat>)
      ensures Valid() && accepted == [] && sent == [] && !isClosed && this.limit == limit
    {
      this.limit := limit;
      sendList, sendPos, sendListSize, writeInterest, isClosed := [], 0, 0, false, false;
      sent, accepted := [], [];
      new;
      ConservedEmpty(sent, accepted);
    }

    /** One send: k is what the kernel makes of it, never more than the data offered. */
    method KernelSend(data: bytes, k: Sent) returns (r: Sent)
      requires data != []
      modifies this`sent
      ensures r == Answer(k, |data|)
      ensures sent == if r.Took? then old(sent) + data[..r.n] else old(sent)
    {
      r := Answer(k, |data|);
      if r.Took? {
        sent := sent + data[..r.n];
      }
    }

    /** The filling loop of send_pkg for a non-empty list: the last buffer first, then new ones. */
    method AppendToList(buf: bytes)
      requires ListOk() && sendList != [] && buf != []
      modifies this`sendList, this`sendListSize
      ensures ListOk() && sendList != []
      ensures Concat(sendList) == Concat(old(sendList)) + buf
    {
      hide Concat;
      var p := 0;
      assert Concat(sendList) + buf[..0] == Concat(sendList);
      while true
        invariant 0 <= p <= |buf| && sendListSize == |sendList| > 0
        invariant Concat(sendList) == Concat(old(sendList)) + buf[..p]
        invariant Packed(sendList[..|sendList| - 1])
        invariant |sendList| > 1 ==> |sendList[|sendList| - 2]| == BUF_LEN
        invariant |sendList[|sendList| - 1]| <= BUF_LEN && sendPos <= |sendList[0]|
        invariant sendPos < |sendList[0]|
        invariant p < |buf|
        decreases |buf| - p, if |sendList[|sendList| - 1]| == BUF_LEN then 1 else 0
      {
        var n := |sendList| - 1;
        var size := BUF_LEN - |sendList[n]|;
        if size >= |buf| - p {
          size := |buf| - p;
        }
        ghost var was := sendList;
        sendList := sendList[n := sendList[n] + buf[p..p + size]];
        ConcatLast(was, buf[p..p + size]);
        Piece(Concat(old(sendList)), buf, p, size);
        p := p + size;
        assert sendList[..n] == was[..n];
        if p < |buf| {
          ConcatSnoc(sendList, []);
          assert Concat(sendList) + [] == Concat(sendList);
          assert (sendList + [[]])[..n + 1] == sendList;
          sendList := sendList + [[]];
          sendListSize := sendListSize + 1;
        } else {
          assert buf[..p] == buf;
          return;
        }
      }
    }

    /** The allocating loop of send_pkg for an empty list. */
    method FillList(rest: bytes)
      requires sendList == [] && sendListSize == 0 && sendPos == 0 && rest != []
      modifies this`sendList, this`sendListSize
      ensures ListOk() && sendList != [] && Concat(sendList) == rest
    {
      var p := 0;
      while true
        invariant 0 <= p < |rest| && sendListSize == |sendList|
        invariant Concat(sendList) == rest[..p]
        invariant forall i :: 0 <= i < |sendList| ==> |sendList[i]| == BUF_LEN
        decreases |rest| - p
      {
        var size := if BUF_LEN > |rest| - p then |rest| - p else BUF_LEN;
        ConcatSnoc(sendList, rest[p..p + size]);
        assert rest[..p + size] == rest[..p] + rest[p..p + size];
        sendList := sendList + [rest[p..p + size]];
        sendListSize := sendListSize + 1;
        p := p + size;
        if p == |rest| {
          assert rest[..p] == rest;
          return;
        }
      }
    }

    /** send_pkg. The packet is accepted whole, or dropped whole; it is dropped exactly when the list is
        not empty and at its limit. Empty packets are kept out by the callers. */
    method SendPkg(buf: bytes, k: Sent, ctlOk: bool) returns (o: Outcome)
      requires Valid() && buf != []
      modifies this
      ensures isClosed == old(isClosed)
      ensures var direct := old(sendList) == [];
              var r := Answer(k, |buf|);
              && sent == (if direct && r.Took? then old(sent) + buf[..r.n] else old(sent))
              && o == if direct && (r.Broken? || (r != Took(|buf|) && !ctlOk)) then Failed else Alive
      ensures old(sendList) == [] && k == Broken ==> o == Failed && sent == old(sent)
      ensures old(sendList) == [] && k == Later && ctlOk ==> o == Alive && sent == old(sent)
      ensures o == Alive ==> Valid()
      ensures o == Alive ==>
                var full := old(sendList) != [] && limit.Some? && |old(sendList)| >= limit.value;
                if full then accepted == old(accepted) && sendList == old(sendList) && sendPos == old(sendPos)
                else accepted == old(accepted) + [buf]
    {
      hide Concat, Conserved;
      if sendList != [] {
        if limit.Some? && sendListSize >= limit.value {
          return Alive;
        }
        ghost var list := sendList;
        AppendToList(buf);
        ConservedAppend(sent, list, sendPos, accepted, sendList, buf);
        accepted := accepted + [buf];
        return Alive;
      }
      ghost var s0 := sent;
      var r := KernelSend(buf, k);
      if r.Broken? {
        return Failed;
      }
      var p := if r.Took? then r.n else 0;
      assert s0 + buf[..0] == s0;
      if p < |buf| {
        FillList(buf[p..]);
      } else {
        ConcatNone();
      }
      ConservedDirect(s0, accepted, buf, p, sendList);
      accepted := accepted + [buf];
      if p == |buf| {
        return Alive;
      }
      if !ctlOk {
        return Failed;
      }
      writeInterest := true;
      return Alive;
    }

    /** handle_output: sends from the front of the list until it is empty or the kernel takes no more; the
        kernel answers the calls of send in turn, and takes nothing after its last answer. A
        closed connection ends exactly when everything accepted has been sent. */
    method HandleOutput(answers: seq<Sent>, ctlOk: bool) returns (o: Outcome)
      requires Valid()
      modifies this
      ensures var d := Drains(old(sendList), old(sendPos), answers);
              && |sent| == |old(sent)| + d.taken && sent <= Concat(accepted)
              && o == if d.stop.Some? then (if d.stop.value.Broken? then Failed else Alive)
                      else if isClosed then Flushed else if ctlOk then Alive else Failed
      ensures accepted == old(accepted) && isClosed == old(isClosed)
      ensures o == Alive ==> Valid()
      ensures o == Flushed ==> isClosed && sent == Concat(accepted)
    {
      hide Concat, Conserved, Drains;
      var i := 0;
      ghost var total := Drains(sendList, sendPos, answers);
      assert From(answers, 0) == answers;
      while sendList != []
        invariant 0 <= i
        invariant ListOk() && Conserved(sent, sendList, sendPos, accepted)
        invariant accepted == old(accepted) && isClosed == old(isClosed)
        invariant |old(sent)| <= |sent|
                  && total == After(|sent| - |old(sent)|, Drains(sendList, sendPos, From(answers, i)))
        invariant writeInterest == old(writeInterest)
        invariant sendList != [] ==> old(sendList) != []
        decreases |sendList|, if sendList == [] then 0 else |sendList[0]| - sendPos
      {
        var buffer := sendList[0];
        ghost var s0 := sent;
        DrainsStep(sendList, sendPos, answers, i);
        ConservedPrefix(sent, sendList, sendPos, accepted);
        var r := KernelSend(buffer[sendPos..], if i < |answers| then answers[i] else Later);
        i := i + 1;
        if r.Took? {
          ConservedTook(s0, sendList, sendPos, accepted, r.n);
          sendPos := sendPos + r.n;
          if sendPos == |buffer| {
            sendList := sendList[1..];
            sendListSize := sendListSize - 1;
            sendPos := 0;
          }
        } else if r.Later? {
          return Alive;
        } else {
          return Failed;
        }
      }
      ConservedEmpty(sent, accepted);
      DrainsNothing(From(answers, i));
      if isClosed {
        return Flushed;
      }
      if !ctlOk {
        return Failed;
      }
      writeInterest := false;
      return Alive;
    }

    /** shut: at once when nothing waits, otherwise once the list has been sent. */
    method Shut() returns (o: Outcome)
      requires Valid()
      modifies this`isClosed
      ensures Valid() && (o == Alive || o == Flushed)
      ensures o == Flushed ==> sent == Concat(accepted)
      ensures o == Alive ==> isClosed && writeInterest
    {
      if sendList != [] {
        isClosed := true;
        return Alive;
      }
      ConservedEmpty(sent, accepted);
      return Flushed;
    }
  }
}
