/** shmq_push and shmq_pull of shmq.cpp on the shared byte array, between calls of the other side. */
module ShmRing {
  import opened Bytes
  import opened ShmBlock

  /** The bytes the two-part copy out of the ring collects. */
  function Collect(base: bytes, pos: nat, n: nat): bytes
    requires pos <= |base| && n <= |base|
  {
    if pos + n <= |base| then base[pos..pos + n] else base[pos..] + base[..n - (|base| - pos)]
  }

  /** The copy out of the ring, whole or in two parts, is the data stored from there on. */
  lemma CollectIsData(base: bytes, x: nat, data: bytes)
    requires |base| > 0 && |data| <= |base| && Holds(base, x, data)
    ensures Collect(base, Pos(x, |base|), |data|) == data
  {
    hide Slot, Pos;
    var c := Collect(base, Pos(x, |base|), |data|);
    forall k | 0 <= k < |data| ensures c[k] == data[k] {
      if k < |base| {
        SlotWrap(x, k, |base|);
        assert base[Slot(x + k, |base|)] == data[k];
      }
    }
  }

  class Ring {
    const size: nat
    const base: array<byte>
    var wPos: nat
    var rPos: nat

    ghost var written: nat
    ghost var read: nat
    ghost var queue: seq<Block>

    /** Sizes stay below 2^31, so no uint32 sum of the source wraps. */
    ghost predicate Valid()
      reads this, base
    {
      && 0 < size < TWO31 && base.Length == size
      && read <= written < read + size
      && wPos == Pos(written, size) && rPos == Pos(read, size)
      && (forall i :: 0 <= i < |queue| ==> WellFormed(queue[i]))
      && |Images(queue)| == written - read
      && Holds(base[..], read, Images(queue))
    }

    constructor (size: nat)
      requires 0 < size < TWO31
      ensures Valid() && this.size == size && queue == [] && fresh(base)
    {
      this.size := size;
      base := new byte[size];
      wPos, rPos, written, read, queue := 0, 0, 0, 0, [];
    }

    /** memcpy into the ring: appends data to the bytes d already held from the y-th on. */
    method MemCpyIn(off: nat, data: bytes, ghost y: nat, ghost d: bytes)
      requires base.Length == size > 0 && off + |data| <= size
      requires Holds(base[..], y, d) && |d| + |data| <= size
      requires data != [] ==> off == Wrap(Pos(y + |d|, size), 0, size)
      modifies base
      ensures Holds(base[..], y, d + data)
    {
      hide Slot, Pos;
      assert d + data[..0] == d;
      for k := 0 to |data|
        invariant Holds(base[..], y, d + data[..k])
      {
        ghost var b0 := base[..];
        SlotWrap(y + |d|, k, size);
        assert Slot(y + |d| + k, size) == off + k;
        HoldsPut(b0, y, d + data[..k], y + |d| + k, data[k]);
        base[off + k] := data[k];
        assert base[..] == b0[Slot(y + |d| + k, size) := data[k]];
        HoldsOne(base[..], y + |d| + k, data[k]);
        HoldsJoin(base[..], y, d + data[..k], [data[k]]);
        assert d + data[..k] + [data[k]] == d + data[..k + 1];
      }
      assert data[..|data|] == data;
    }

    /** The two-part write of shmq_push: data at pos, the rest at the start of the ring. */
    method CopyIn(pos: nat, data: bytes, ghost y: nat, ghost d: bytes) returns (end: nat)
      requires base.Length == size > 0
      requires Holds(base[..], y, d) && |d| + |data| <= size
      requires pos == Pos(y + |d|, size)
      modifies base
      ensures Holds(base[..], y, d + data) && end == Pos(y + |d| + |data|, size)
    {
      hide Slot, Pos, Holds;
      PosAdvance(y + |d|, |data|, size);
      if pos + |data| <= size {
        MemCpyIn(if pos == size then 0 else pos, data, y, d);
        end := pos + |data|;
      } else {
        var n := size - pos;
        PosAdvance(y + |d|, n, size);
        MemCpyIn(if n == 0 then 0 else pos, data[..n], y, d);
        assert y + |d + data[..n]| == y + |d| + n;
        MemCpyIn(0, data[n..], y, d + data[..n]);
        assert d + data[..n] + data[n..] == d + data;
        end := |data| - n;
      }
    }

    /** shmq_push: 1 when the block does not fit, leaving one byte free at least; otherwise the block is queued. */
    method Push(sb: Block) returns (ret: int)
      requires Valid() && WellFormed(sb) && |sb.body| < size
      modifies this, base
      ensures Valid()
      ensures ret == if |Images(old(queue))| + HEAD + |sb.body| + 1 > size then 1 else 0
      ensures ret == 0 ==> queue == old(queue) + [sb] && read == old(read)
      ensures ret == 1 ==> unchanged(this) && base[..] == old(base[..])
    {
      hide Slot, Pos, Holds, Image, HeadBytes;
      var totalLen := |sb.body| + HEAD;
      UsedIsExact(read, written, size);
      var s := if wPos >= rPos then size - wPos + rPos else rPos - wPos;
      if s < totalLen + 1 {
        return 1;
      }
      ghost var held := Images(queue);
      var pos := CopyIn(wPos, HeadBytes(sb), read, held);
      pos := CopyIn(pos, sb.body, read, held + HeadBytes(sb));
      ImagesAppend(queue, sb);
      ImageParts(sb, held);
      wPos := pos;
      written := written + totalLen;
      queue := queue + [sb];
      return 0;
    }

    /** The two-part read of shmq_pull. */
    method CopyOut(pos: nat, n: nat) returns (data: bytes, end: nat)
      requires base.Length == size > 0 && pos <= size && n <= size
      ensures data == Collect(base[..], pos, n) && end == Advance(pos, n, size)
    {
      if pos + n <= size {
        data := base[pos..pos + n];
        end := pos + n;
      } else {
        var k := size - pos;
        data := base[pos..] + base[..n - k];
        end := n - k;
      }
      assert base[..][pos..] == base[pos..];
    }

    /** shmq_pull: 1 when the ring is empty, otherwise the oldest block, header and body intact. */
    method Pull() returns (ret: int, block: Option<Block>)
      requires Valid()
      modifies this`rPos, this`read, this`queue
      ensures Valid()
      ensures ret == if old(queue) == [] then 1 else 0
      ensures ret == 1 ==> block == None && queue == old(queue) && read == old(read)
      ensures ret == 0 ==> block == Some(old(queue)[0]) && queue == old(queue)[1..]
    {
      hide Slot, Pos, Holds, Image, Images, HeadBytes, HeadLen, FromImage, Collect;
      UsedIsExact(read, written, size);
      var s := if wPos >= rPos then wPos - rPos else size - rPos + wPos;
      if s == 0 {
        ImagesLength(queue);
        return 1, None;
      }
      FirstImage(base[..], read, queue);
      ghost var b, rest := queue[0], Images(queue[1..]);
      PosAdvance(read, HEAD, size);
      PosAdvance(read + HEAD, |b.body|, size);
      CollectIsData(base[..], read, HeadBytes(b));
      CollectIsData(base[..], read + HEAD, b.body);
      ImageRoundTrip(b);

      var head, pos := CopyOut(rPos, HEAD);
      var len := HeadLen(head);
      var body := [];
      if len > 0 {
        body, pos := CopyOut(pos, len);
      }
      block := Some(FromImage(head, body));
      ret := 0;
      rPos := pos;
      read := read + HEAD + len;
      queue := queue[1..];
    }
  }

  lemma ImageParts(b: Block, held: bytes)
    requires WellFormed(b)
    ensures held + HeadBytes(b) + b.body == held + Image(b)
  {
    hide HeadBytes;
  }

  /** What the ring holds starts with the oldest block's header and body. */
  lemma FirstImage(base: bytes, read: nat, queue: seq<Block>)
    requires (forall i :: 0 <= i < |queue| ==> WellFormed(queue[i])) && |Images(queue)| > 0
    requires Holds(base, read, Images(queue))
    ensures queue != []
    ensures var b := queue[0];
            |Images(queue)| == HEAD + |b.body| + |Images(queue[1..])|
            && Holds(base, read, HeadBytes(b)) && Holds(base, read + HEAD, b.body)
            && Holds(base, read + HEAD + |b.body|, Images(queue[1..]))
  {
    hide HeadBytes, Holds;
    var b := queue[0];
    HoldsJoin(base, read, Image(b), Images(queue[1..]));
    HoldsJoin(base, read, HeadBytes(b), b.body);
    assert read + |Image(b)| == read + HEAD + |b.body|;
  }
}
