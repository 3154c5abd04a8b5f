/** The receive side of c_tcp_socket (tcp_socket.cpp): packets cut out of the byte stream. */
module Reassembly {
  import opened Bytes

  /** get_pkg_len_cli: the packet's length once its header has arrived, 0 before, negative for garbage. */
  type LenOf = bytes -> int

  const MIN_BUF := 4096

  /** What the plugin promises: further bytes never change an answer, and headers are shorter than the
      first receive buffer. */
  ghost predicate Stable(f: LenOf) {
    && (forall s: bytes, t: bytes {:trigger f(s + t)} :: f(s) != 0 ==> f(s + t) == f(s))
    && (forall s: bytes {:trigger f(s)} :: f(s) == 0 ==> |s| < MIN_BUF)
  }

  /** A byte stream cut greedily: the packets, what is left, and whether that starts with a bad length. */
  datatype Framing = Framing(packets: seq<bytes>, tail: bytes, bad: bool)

  function Cut(f: LenOf, max: nat, s: bytes): (r: Framing)
    ensures Concat(r.packets) + r.tail == s
    ensures forall i :: 0 <= i < |r.packets| ==> 0 < |r.packets[i]| <= max
    decreases |s|
  {
    if s == [] then Framing([], [], false)
    else
      var len := f(s);
      if len < 0 || len > max then Framing([], s, true)
      else if len == 0 || len > |s| then Framing([], s, false)
      else
        var r := Cut(f, max, s[len..]);
        assert s == s[..len] + s[len..];
        Framing([s[..len]] + r.packets, r.tail, r.bad)
  }

  /** The bytes from packet i on. */
  function FromPacket(r: Framing, i: nat): bytes
    requires i <= |r.packets|
  {
    Concat(r.packets[i..]) + r.tail
  }

  /** Each packet begins where the one before ends and has the length told of it there; what is left begins with a
      length below 0 or above max if it is bad, and otherwise is no whole packet. */
  ghost predicate IsFraming(f: LenOf, max: nat, s: bytes, r: Framing) {
    && FromPacket(r, 0) == s
    && (forall i: nat :: i < |r.packets| ==> f(FromPacket(r, i)) == |r.packets[i]| && 0 < |r.packets[i]| <= max)
    && if r.bad then r.tail != [] && (f(r.tail) < 0 || f(r.tail) > max)
       else r.tail == [] || f(r.tail) == 0 || |r.tail| < f(r.tail) <= max
  }

  /** The greedy cut is the one framing there is. */
  lemma {:induction false} CutExactly(f: LenOf, max: nat, s: bytes, r: Framing)
    ensures Cut(f, max, s) == r <==> IsFraming(f, max, s, r)
    decreases |s|
  {
    hide Concat;
    if r.packets == [] {
      assert r.packets[0..] == [];
      NoPacketYet(r);
      FirstCut(f, max, s);
    } else {
      var p, more := r.packets[0], r.(packets := r.packets[1..]);
      FirstPacket(r);
      FramingMore(f, max, r);
      FirstCut(f, max, s);
      if IsFraming(f, max, s, r) {
        assert FromPacket(r, 0) == s;
        assert s[..|p|] == p && s[|p|..] == FromPacket(more, 0);
        CutExactly(f, max, s[|p|..], more);
      } else if Cut(f, max, s).packets != [] {
        CutExactly(f, max, s[f(s)..], Cut(f, max, s[f(s)..]));
      }
    }
  }

  lemma NoPacketYet(r: Framing)
    requires r.packets == []
    ensures FromPacket(r, 0) == r.tail
  {
    assert r.packets[0..] == [] && [] + r.tail == r.tail;
  }

  lemma FirstPacket(r: Framing)
    requires r.packets != []
    ensures var more := r.(packets := r.packets[1..]);
            && FromPacket(r, 0) == r.packets[0] + FromPacket(more, 0)
            && forall i: nat :: i < |more.packets| ==> FromPacket(more, i) == FromPacket(r, i + 1)
  {
    assert r.packets[0..] == r.packets && r.packets[1..][0..] == r.packets[1..];
    forall i: nat | i < |r.packets| - 1 ensures r.packets[1..][i..] == r.packets[i + 1..] {
    }
    Associate(r.packets[0], Concat(r.packets[1..]), r.tail);
  }

  lemma FramingMore(f: LenOf, max: nat, r: Framing)
    requires r.packets != []
    ensures var more := r.(packets := r.packets[1..]);
            IsFraming(f, max, FromPacket(r, 0), r)
            <==> f(FromPacket(r, 0)) == |r.packets[0]| && 0 < |r.packets[0]| <= max
                 && IsFraming(f, max, FromPacket(more, 0), more)
  {
    hide FromPacket;
    var more := r.(packets := r.packets[1..]);
    FirstPacket(r);
    if IsFraming(f, max, FromPacket(more, 0), more) && f(FromPacket(r, 0)) == |r.packets[0]|
       && 0 < |r.packets[0]| <= max {
      forall i: nat | i < |r.packets| ensures f(FromPacket(r, i)) == |r.packets[i]| && 0 < |r.packets[i]| <= max {
        if i > 0 {
          assert more.packets[i - 1] == r.packets[i] && FromPacket(more, i - 1) == FromPacket(r, i - 1 + 1);
        }
      }
    }
    if IsFraming(f, max, FromPacket(r, 0), r) {
      forall i: nat | i < |more.packets|
        ensures f(FromPacket(more, i)) == |more.packets[i]| && 0 < |more.packets[i]| <= max
      {
        assert more.packets[i] == r.packets[i + 1] && FromPacket(more, i) == FromPacket(r, i + 1);
      }
    }
  }

  lemma FirstCut(f: LenOf, max: nat, s: bytes)
    ensures var r := Cut(f, max, s);
            if s != [] && 0 < f(s) <= max && f(s) <= |s|
            then r.packets != [] && r.packets[0] == s[..f(s)]
                 && r.(packets := r.packets[1..]) == Cut(f, max, s[f(s)..])
            else r == Framing([], s, s != [] && (f(s) < 0 || f(s) > max))
  {
  }

  function Before(ps: seq<bytes>, r: Framing): Framing {
    Framing(ps + r.packets, r.tail, r.bad)
  }

  lemma CutOne(f: LenOf, max: nat, s: bytes, len: nat)
    requires s != [] && f(s) == len && 0 < len <= max && len <= |s|
    ensures Cut(f, max, s) == Before([s[..len]], Cut(f, max, s[len..]))
  {
  }

  lemma CutStop(f: LenOf, max: nat, s: bytes)
    requires s == [] || f(s) == 0 || |s| < f(s) <= max
    ensures Cut(f, max, s) == Framing([], s, false)
  {
  }

  lemma CutBad(f: LenOf, max: nat, s: bytes)
    requires s != [] && (f(s) < 0 || f(s) > max)
    ensures Cut(f, max, s) == Framing([], s, true)
  {
  }

  lemma BeforeNone(ps: seq<bytes>, tail: bytes, bad: bool)
    ensures Before(ps, Framing([], tail, bad)) == Framing(ps, tail, bad)
  {
  }

  lemma BeforeTwice(a: seq<bytes>, b: seq<bytes>, r: Framing)
    ensures Before(a, Before(b, r)) == Before(a + b, r) && Before([], r) == r
  {
    assert a + (b + r.packets) == a + b + r.packets;
  }

  /** More bytes continue a framing from its tail; a bad length is final. */
  lemma {:induction false} CutExtend(f: LenOf, max: nat, s: bytes, t: bytes)
    requires Stable(f)
    ensures var r := Cut(f, max, s);
            if r.bad then Cut(f, max, s + t) == Framing(r.packets, r.tail + t, true)
            else Cut(f, max, s + t) == Before(r.packets, Cut(f, max, r.tail + t))
    decreases |s|
  {
    var r := Cut(f, max, s);
    BeforeTwice([], [], Cut(f, max, s + t));
    if s != [] {
      var len := f(s);
      if 0 < len <= max && len <= |s| {
        assert f(s + t) == len;
        SliceSum(s, t, len);
        CutExtend(f, max, s[len..], t);
        CutOne(f, max, s + t, len);
        CutOne(f, max, s, len);
        BeforeTwice([s[..len]], Cut(f, max, s[len..]).packets, Cut(f, max, r.tail + t));
      } else if len != 0 {
        assert f(s + t) == len;
      }
    }
  }

  lemma SliceSum(s: bytes, t: bytes, n: nat)
    requires n <= |s|
    ensures (s + t)[..n] == s[..n] && (s + t)[n..] == s[n..] + t
  {
  }

  // ----- whole runs -----

  /** Framing chunk by chunk, as the calls of handle_input do it: each chunk is joined to the tail. */
  function CutChunks(f: LenOf, max: nat, chunks: seq<bytes>): Framing {
    if chunks == [] then Framing([], [], false)
    else
      var r := CutChunks(f, max, chunks[..|chunks| - 1]);
      if r.bad then r else Before(r.packets, Cut(f, max, r.tail + chunks[|chunks| - 1]))
  }

  /** However the stream is split by recv, the packets dispatched are the greedy framing of all bytes, the
      connection fails exactly when that framing meets a bad length, and until then the buffer holds
      exactly the unframed tail. */
  lemma {:induction false} SplittingNeverMatters(f: LenOf, max: nat, chunks: seq<bytes>)
    requires Stable(f)
    ensures var r, whole := CutChunks(f, max, chunks), Cut(f, max, Concat(chunks));
            r.packets == whole.packets && r.bad == whole.bad && (!r.bad ==> r.tail == whole.tail)
  {
    if chunks != [] {
      var init, last := chunks[..|chunks| - 1], chunks[|chunks| - 1];
      SplittingNeverMatters(f, max, init);
      assert chunks == init + [last];
      ConcatAppend(init, [last]);
      assert Concat([last]) == last by {
        var one := [last];
        assert one[1..] == [] && Concat(one[1..]) == [] && last + [] == last;
      }
      CutExtend(f, max, Concat(init), last);
    }
  }

  /** What recv makes of a stream: it takes up to n bytes, none for now; the peer has closed; or an error. */
  datatype Answer = Take(n: nat) | Retry | Close | Error

  /** Nothing to cut yet. */
  predicate Uncut(f: LenOf, max: nat, s: bytes) {
    Cut(f, max, s) == Framing([], s, false)
  }

  lemma UncutIs(f: LenOf, max: nat, s: bytes)
    requires Uncut(f, max, s)
    ensures Cut(f, max, s) == Framing([], s, false)
  {
  }

  lemma NothingUncut(f: LenOf, max: nat)
    ensures Uncut(f, max, [])
  {
  }

  lemma TailUncut(f: LenOf, max: nat, s: bytes)
    requires Stable(f) && !Cut(f, max, s).bad
    ensures Uncut(f, max, Cut(f, max, s).tail)
  {
    CutExtend(f, max, s, []);
    assert s + [] == s && Cut(f, max, s).tail + [] == Cut(f, max, s).tail;
  }

  /** How many of n packets, the first of them number from, are passed on before the plugin refuses one. */
  function Passed(refuses: nat -> bool, from: nat, n: nat): (k: nat)
    ensures k <= n
    decreases n
  {
    if n == 0 || refuses(from) then 0 else 1 + Passed(refuses, from + 1, n - 1)
  }

  /** The first packet refused ends the call. */
  lemma {:induction false} PassedExactly(refuses: nat -> bool, from: nat, n: nat)
    ensures var k := Passed(refuses, from, n);
            (forall j :: from <= j < from + k ==> !refuses(j)) && (k < n ==> refuses(from + k))
    decreases n
  {
    if n > 0 && !refuses(from) {
      PassedExactly(refuses, from + 1, n - 1);
    }
  }

  lemma {:induction false} PassedOn(refuses: nat -> bool, from: nat, m: nat, n: nat)
    requires m <= n && Passed(refuses, from, m) == m
    ensures Passed(refuses, from, n) == m + Passed(refuses, from + m, n - m)
    decreases m
  {
    if m > 0 {
      PassedOn(refuses, from + 1, m - 1, n - 1);
    }
  }

  /** The packets dispatched of a framing whose first packet has number from: all, or those up to the one refused. */
  function Sent(refuses: nat -> bool, from: nat, packets: seq<bytes>): seq<bytes> {
    var k := Passed(refuses, from, |packets|);
    if k < |packets| then packets[..k + 1] else packets
  }

  predicate AllPass(refuses: nat -> bool, from: nat, packets: seq<bytes>) {
    Passed(refuses, from, |packets|) == |packets|
  }

  lemma PassBoth(refuses: nat -> bool, from: nat, a: seq<bytes>, b: seq<bytes>)
    requires AllPass(refuses, from, a)
    ensures Sent(refuses, from, a + b) == a + Sent(refuses, from + |a|, b)
    ensures AllPass(refuses, from, a + b) <==> AllPass(refuses, from + |a|, b)
  {
    PassedOn(refuses, from, |a|, |a + b|);
    var k := Passed(refuses, from + |a|, |b|);
    if k < |b| {
      assert (a + b)[..|a| + k + 1] == a + b[..k + 1];
    }
  }

  // ----- the socket -----

  /** What recv returned. */
  datatype Recv = Data(bytes: bytes) | Eof | Again | Failure

  class Socket {
    const getPkgLen: LenOf
    const maxPkgLen: nat
    /** Whether the plugin's shmq_pushed hook answers -1 for the packet with this number. */
    const refuses: nat -> bool
    var recvBuf: array<byte>
    var recvPos: nat
    var isClosed: bool
    var dispatched: seq<bytes>

    /** There is always room for the next recv, the buffer never outgrows the largest packet, and no packet is left
        in it. */
    ghost predicate Valid()
      reads this, recvBuf
    {
      && Stable(getPkgLen)
      && MIN_BUF <= recvBuf.Length <= maxPkgLen
      && recvPos < recvBuf.Length
      && Uncut(getPkgLen, maxPkgLen, recvBuf[..recvPos])
    }

    /** The bytes received and not yet cut. */
    ghost function Pending(): bytes
      reads this, recvBuf
      requires recvPos <= recvBuf.Length
    {
      recvBuf[..recvPos]
    }

    constructor (getPkgLen: LenOf, maxPkgLen: nat, refuses: nat -> bool)
      requires Stable(getPkgLen) && MIN_BUF <= maxPkgLen
      ensures Valid() && Pending() == [] && dispatched == [] && !isClosed && fresh(recvBuf)
      ensures this.getPkgLen == getPkgLen && this.maxPkgLen == maxPkgLen && this.refuses == refuses
    {
      this.getPkgLen, this.maxPkgLen, this.refuses := getPkgLen, maxPkgLen, refuses;
      recvBuf := new byte[MIN_BUF];
      recvPos, isClosed, dispatched := 0, false, [];
    }

    /** realloc */
    method Grow(len: nat)
      requires recvPos <= recvBuf.Length < len
      modifies this`recvBuf
      ensures fresh(recvBuf) && recvBuf.Length == len && Pending() == old(Pending())
    {
      var tmp := new byte[len];
      forall i | 0 <= i < recvBuf.Length {
        tmp[i] := recvBuf[i];
      }
      assert tmp[..recvPos] == recvBuf[..recvPos];
      recvBuf := tmp;
    }

    /** The copy to the front of the buffer (the source's memcpy, taken as a memmove). */
    method MoveDown(pos: nat)
      requires pos <= recvPos <= recvBuf.Length
      modifies this`recvPos, recvBuf
      ensures recvPos == old(recvPos) - pos && Pending() == old(Pending())[pos..]
    {
      if pos != 0 {
        ghost var tail := recvBuf[pos..recvPos];
        forall i | 0 <= i < recvPos - pos {
          recvBuf[i] := recvBuf[pos + i];
        }
        recvPos := recvPos - pos;
        assert recvBuf[..recvPos] == tail;
      }
    }

    /** handle_input. On true the buffer holds exactly the unframed tail, with room for more; on false after data the
        framing has met a bad length, all packets before it having been dispatched, or the plugin has refused the last
        packet dispatched. */
    method HandleInput(r: Recv) returns (ok: bool)
      requires Valid() && (r.Data? ==> 0 < |r.bytes| <= recvBuf.Length - recvPos)
      modifies this, recvBuf
      ensures !r.Data? ==> unchanged(this) && Pending() == old(Pending()) && ok == r.Again?
      ensures r.Data? && isClosed ==> ok && Valid() && Pending() == [] && dispatched == old(dispatched)
      ensures r.Data? && !isClosed ==>
                var c := Cut(getPkgLen, maxPkgLen, old(Pending()) + r.bytes);
                && dispatched == old(dispatched) + Sent(refuses, |old(dispatched)|, c.packets)
                && (ok <==> !c.bad && AllPass(refuses, |old(dispatched)|, c.packets))
                && (ok ==> Valid() && Pending() == c.tail)
      ensures isClosed == old(isClosed) && (recvBuf == old(recvBuf) || fresh(recvBuf))
    {
      hide Stable, Cut, Uncut, Sent, AllPass, Passed;
      NothingUncut(getPkgLen, maxPkgLen);
      if r.Eof? || r.Failure? {
        return false;
      }
      if r.Again? {
        return true;
      }
      ghost var before := Pending();
      forall i | 0 <= i < |r.bytes| {
        recvBuf[recvPos + i] := r.bytes[i];
      }
      if isClosed {
        recvPos := 0;
        return true;
      }
      recvPos := recvPos + |r.bytes|;
      ghost var s := Pending();
      assert recvBuf[..recvPos - |r.bytes|] == before;
      assert s == before + r.bytes;
      ok := CutPackets();
    }

    /** The loop of handle_input, from label READ to MOVE. */
    method CutPackets() returns (ok: bool)
      requires Stable(getPkgLen) && MIN_BUF <= recvBuf.Length <= maxPkgLen && 0 < recvPos <= recvBuf.Length
      modifies this`recvBuf, this`recvPos, this`dispatched, recvBuf
      ensures var c := Cut(getPkgLen, maxPkgLen, old(Pending()));
              && dispatched == old(dispatched) + Sent(refuses, |old(dispatched)|, c.packets)
              && (ok <==> !c.bad && AllPass(refuses, |old(dispatched)|, c.packets))
              && (ok ==> Valid() && Pending() == c.tail)
      ensures recvBuf == old(recvBuf) || fresh(recvBuf)
    {
      hide Stable, Cut, Passed, Sent, AllPass, Uncut, CutUpTo;
      ghost var s, f, max, from := Pending(), getPkgLen, maxPkgLen, |dispatched|;
      ghost var packets: seq<bytes> := [];
      var pos := 0;
      CutUpToStart(f, max, s, refuses, from);
      assert dispatched + [] == dispatched;
      while true
        invariant recvBuf == old(recvBuf) && recvPos == old(recvPos) == |s| && Pending() == s
        invariant pos < recvPos
        invariant dispatched == old(dispatched) + packets && CutUpTo(f, max, s, pos, packets, refuses, from)
        decreases recvPos - pos
      {
        assert recvBuf[pos..recvPos] == s[pos..];
        var len := getPkgLen(recvBuf[pos..recvPos]);
        if len < 0 || len > maxPkgLen {
          CutUpToBad(f, max, s, pos, packets, refuses, from);
          return false;
        }
        if len == 0 {
          if pos == 0 && recvPos == recvBuf.Length {
            assert s[pos..] == s;
            ZeroIsShort(getPkgLen, s);
            return false;
          }
          break;
        }
        if pos == 0 && len > recvBuf.Length {
          Grow(len);
          break;
        }
        if len + pos <= recvPos {
          ghost var packet := s[pos..pos + len];
          Associate(old(dispatched), packets, [packet]);
          CutUpToNext(f, max, s, pos, packets, refuses, from, len);
          var refused := Dispatch(pos, len);
          if refused {
            return false;
          }
          packets := packets + [packet];
          pos := pos + len;
          if pos < recvPos {
            continue;
          }
        }
        break;
      }
      CutUpToEnd(f, max, s, pos, packets, refuses, from);
      MoveDown(pos);
      return true;
    }

    /** One packet handed to the worker's channel, and to the plugin's hook. */
    method Dispatch(pos: nat, len: nat) returns (refused: bool)
      requires pos + len <= recvPos <= recvBuf.Length
      modifies this`dispatched
      ensures dispatched == old(dispatched) + [Pending()[pos..pos + len]] && refused == refuses(|old(dispatched)|)
    {
      PartOf(recvBuf, recvPos, pos, pos + len);
      refused := refuses(|dispatched|);
      dispatched := dispatched + [recvBuf[pos..pos + len]];
    }

    /** What the connection does with a stream: calls of handle_input, each getting what recv takes of it, until one
        fails. Whatever recv takes, the packets dispatched are those of the framing of everything received. */
    method Drive(stream: bytes, answers: seq<Answer>) returns (ok: bool, p: nat)
      requires Valid() && !isClosed
      modifies this, recvBuf
      ensures !isClosed && p <= |stream|
      ensures var c := Cut(getPkgLen, maxPkgLen, old(Pending()) + stream[..p]);
              && dispatched == old(dispatched) + Sent(refuses, |old(dispatched)|, c.packets)
              && (c.bad || !AllPass(refuses, |old(dispatched)|, c.packets) ==> !ok)
              && (ok ==> Valid() && Pending() == c.tail)
              && (!ok ==> c.bad || !AllPass(refuses, |old(dispatched)|, c.packets)
                          || Close in answers || Error in answers)
    {
      hide Stable, Cut, Before, Passed, Sent, AllPass, Uncut;
      UncutIs(getPkgLen, maxPkgLen, Pending());
      ghost var f, max, start, from := getPkgLen, maxPkgLen, Pending(), |dispatched|;
      ghost var packets: seq<bytes> := [];
      ok, p := true, 0;
      var i := 0;
      assert start + stream[..0] == start && dispatched + [] == dispatched;
      NoPackets(refuses, from);
      while i < |answers| && ok
        invariant !isClosed && i <= |answers| && p <= |stream| && (recvBuf == old(recvBuf) || fresh(recvBuf))
        invariant ok ==> Valid() && Cut(f, max, start + stream[..p]) == Framing(packets, Pending(), false)
                         && dispatched == old(dispatched) + packets && AllPass(refuses, from, packets)
        invariant !ok ==> var c := Cut(f, max, start + stream[..p]);
                          && dispatched == old(dispatched) + Sent(refuses, from, c.packets)
                          && (c.bad || !AllPass(refuses, from, c.packets) || Close in answers || Error in answers)
      {
        var r := Received(stream[p..], answers[i]);
        if r.Data? {
          ghost var c := Cut(f, max, Pending() + r.bytes);
          CutExtend(f, max, start + stream[..p], r.bytes);
          assert start + stream[..p] + r.bytes == start + stream[..p + |r.bytes|];
          PassBoth(refuses, from, packets, c.packets);
          ok := HandleInput(r);
          p := p + |r.bytes|;
          BeforeIs(packets, c);
          packets := packets + c.packets;
          AllSent(refuses, from, packets);
        } else {
          ok := HandleInput(r);
          AllSent(refuses, from, packets);
        }
        i := i + 1;
      }
      AllSent(refuses, from, packets);
    }

    /** recv, with the room there is in the buffer. */
    method Received(rest: bytes, a: Answer) returns (r: Recv)
      requires recvPos < recvBuf.Length
      ensures r.Data? ==> 0 < |r.bytes| <= recvBuf.Length - recvPos && r.bytes <= rest && a.Take?
      ensures (r.Eof? <==> a.Close?) && (r.Failure? <==> a.Error?)
    {
      match a
      case Take(n) =>
        var room := recvBuf.Length - recvPos;
        var k := if n <= room then n else room;
        if k > |rest| {
          k := |rest|;
        }
        r := if k == 0 then Again else Data(rest[..k]);
      case Retry => r := Again;
      case Close => r := Eof;
      case Error => r := Failure;
    }
  }

  lemma NoPackets(refuses: nat -> bool, from: nat)
    ensures AllPass(refuses, from, [])
  {
  }

  lemma AllSent(refuses: nat -> bool, from: nat, packets: seq<bytes>)
    ensures AllPass(refuses, from, packets) ==> Sent(refuses, from, packets) == packets
  {
  }

  lemma OnePasses(refuses: nat -> bool, from: nat, packets: seq<bytes>, packet: bytes)
    requires AllPass(refuses, from, packets) && !refuses(from + |packets|)
    ensures AllPass(refuses, from, packets + [packet])
  {
    PassBoth(refuses, from, packets, [packet]);
    assert Passed(refuses, from + |packets| + 1, 0) == 0;
  }

  /** The packet after some that passed is refused: it is the last one dispatched. */
  lemma Refused(refuses: nat -> bool, from: nat, packets: seq<bytes>, packet: bytes, c: Framing)
    requires AllPass(refuses, from, packets) && refuses(from + |packets|)
    ensures var all := Before(packets + [packet], c).packets;
            Sent(refuses, from, all) == packets + [packet] && !AllPass(refuses, from, all)
  {
    hide Sent, AllPass, Passed;
    var more := [packet] + c.packets;
    Associate(packets, [packet], c.packets);
    PassBoth(refuses, from, packets, more);
    FirstRefused(refuses, from + |packets|, more);
  }

  lemma FirstRefused(refuses: nat -> bool, from: nat, packets: seq<bytes>)
    requires packets != [] && refuses(from)
    ensures Sent(refuses, from, packets) == [packets[0]] && !AllPass(refuses, from, packets)
  {
  }

  lemma PartOf(a: array<byte>, n: nat, i: nat, j: nat)
    requires i <= j <= n <= a.Length
    ensures a[i..j] == a[..n][i..j]
  {
    forall k | 0 <= k < j - i ensures a[i..j][k] == a[..n][i..j][k] {
      assert a[i..j][k] == a[i + k] && a[..n][i + k] == a[i + k];
    }
  }

  lemma BeforeIs(ps: seq<bytes>, c: Framing)
    ensures Before(ps, c) == Framing(ps + c.packets, c.tail, c.bad)
  {
  }

  /** The loop so far: the packets cut from s up to pos are the first ones of its framing, and none was refused. */
  ghost predicate CutUpTo(f: LenOf, max: nat, s: bytes, pos: nat, packets: seq<bytes>, refuses: nat -> bool,
                          from: nat)
  {
    pos <= |s| && Cut(f, max, s) == Before(packets, Cut(f, max, s[pos..])) && AllPass(refuses, from, packets)
  }

  lemma CutUpToStart(f: LenOf, max: nat, s: bytes, refuses: nat -> bool, from: nat)
    ensures CutUpTo(f, max, s, 0, [], refuses, from)
  {
    BeforeTwice([], [], Cut(f, max, s));
    assert s[0..] == s;
  }

  lemma CutUpToBad(f: LenOf, max: nat, s: bytes, pos: nat, packets: seq<bytes>, refuses: nat -> bool, from: nat)
    requires CutUpTo(f, max, s, pos, packets, refuses, from) && pos < |s| && (f(s[pos..]) < 0 || f(s[pos..]) > max)
    ensures Cut(f, max, s).bad && Sent(refuses, from, Cut(f, max, s).packets) == packets
  {
    CutBad(f, max, s[pos..]);
    BeforeNone(packets, s[pos..], true);
    AllSent(refuses, from, packets);
  }

  lemma CutUpToNext(f: LenOf, max: nat, s: bytes, pos: nat, packets: seq<bytes>, refuses: nat -> bool, from: nat,
                    len: nat)
    requires CutUpTo(f, max, s, pos, packets, refuses, from)
    requires pos < |s| && f(s[pos..]) == len && 0 < len <= max && pos + len <= |s|
    ensures var packet := s[pos..pos + len];
            if refuses(from + |packets|) then
              Sent(refuses, from, Cut(f, max, s).packets) == packets + [packet]
                 && !AllPass(refuses, from, Cut(f, max, s).packets)
            else CutUpTo(f, max, s, pos + len, packets + [packet], refuses, from)
  {
    hide Cut, Before, Sent, AllPass;
    NextPacket(f, max, s, pos, len, packets);
    if refuses(from + |packets|) {
      Refused(refuses, from, packets, s[pos..pos + len], Cut(f, max, s[pos + len..]));
    } else {
      OnePasses(refuses, from, packets, s[pos..pos + len]);
    }
  }

  lemma CutUpToEnd(f: LenOf, max: nat, s: bytes, pos: nat, packets: seq<bytes>, refuses: nat -> bool, from: nat)
    requires Stable(f) && CutUpTo(f, max, s, pos, packets, refuses, from)
    requires pos == |s| || f(s[pos..]) == 0 || |s| - pos < f(s[pos..]) <= max
    ensures var c := Cut(f, max, s);
            && !c.bad && c.tail == s[pos..] && Uncut(f, max, s[pos..])
            && Sent(refuses, from, c.packets) == packets && AllPass(refuses, from, c.packets)
  {
    hide Stable, Cut, Uncut;
    CutStop(f, max, s[pos..]);
    BeforeNone(packets, s[pos..], false);
    AllSent(refuses, from, packets);
    TailUncut(f, max, s);
  }

  lemma NextPacket(f: LenOf, max: nat, s: bytes, pos: nat, len: nat, packets: seq<bytes>)
    requires pos < |s| && f(s[pos..]) == len && 0 < len <= max && pos + len <= |s|
    ensures Before(packets, Cut(f, max, s[pos..])) == Before(packets + [s[pos..pos + len]], Cut(f, max, s[pos + len..]))
  {
    CutOne(f, max, s[pos..], len);
    assert s[pos..][..len] == s[pos..pos + len] && s[pos..][len..] == s[pos + len..];
    BeforeTwice(packets, [s[pos..pos + len]], Cut(f, max, s[pos + len..]));
  }

  lemma ZeroIsShort(f: LenOf, s: bytes)
    requires Stable(f) && f(s) == 0
    ensures |s| < MIN_BUF
  {
  }

  // ----- a plugin that keeps the promise -----

  const HEADER := 18

  /** A plugin for the 18-byte header of the framework's documentation: the length is its first field. */
  function HeaderLen(s: bytes): int {
    if |s| < HEADER then 0
    else
      var b0: nat, b1: nat, b2: nat, b3: nat := s[0], s[1], s[2], s[3];
      var len := b0 + 0x100 * b1 + 0x1_0000 * b2 + 0x100_0000 * b3;
      if len < HEADER || len > INT_MAX then -1 else len
  }

  lemma HeaderLenStable()
    ensures Stable(HeaderLen)
  {
    forall s: bytes, t: bytes | HeaderLen(s) != 0 ensures HeaderLen(s + t) == HeaderLen(s) {
      assert (s + t)[..|s|] == s;
    }
  }
}
