/** shm_block_t (shmq.h) and its 16-byte image, and the geometry of the shared byte ring of shmq.cpp. */
module ShmBlock {
  import opened Bytes

  /** sizeof(struct shm_block_t): 4 + 4 + 4 + 1 bytes, padded to 16. */
  const HEAD := 16

  const CLOSE_BLOCK: byte := 1
  const LOGIN_BLOCK: byte := 2
  const PROTO_BLOCK: byte := 3

  /** A block: the header fields, the three padding bytes copied along with them, and the body. */
  datatype Block = Block(fd: nat, id: nat, typ: byte, pad: bytes, body: bytes)

  predicate WellFormed(b: Block) {
    b.fd < TWO32 && b.id < TWO32 && |b.body| < TWO32 && |b.pad| == 3
  }

  // ----- the image of a block -----

  function Le32(n: nat): (s: bytes)
    requires n < TWO32
    ensures |s| == 4
  {
    [n % 256, n / 0x100 % 256, n / 0x1_0000 % 256, n / 0x100_0000]
  }

  function FromLe32(s: bytes): nat
    requires |s| == 4
  {
    var b0: nat, b1: nat, b2: nat, b3: nat := s[0], s[1], s[2], s[3];
    b0 + 0x100 * b1 + 0x1_0000 * b2 + 0x100_0000 * b3
  }

  lemma Le32RoundTrip(n: nat)
    requires n < TWO32
    ensures FromLe32(Le32(n)) == n
  {
    var a, b := n / 0x100, n / 0x1_0000;
    assert a / 0x100 == b && b / 0x100 == n / 0x100_0000;
  }

  function HeadBytes(b: Block): (s: bytes)
    requires WellFormed(b)
    ensures |s| == HEAD
  {
    Le32(b.fd) + Le32(b.id) + Le32(|b.body|) + [b.typ] + b.pad
  }

  function Image(b: Block): (s: bytes)
    requires WellFormed(b)
    ensures |s| == HEAD + |b.body|
  {
    HeadBytes(b) + b.body
  }

  /** The body length in a header image. */
  function HeadLen(h: bytes): nat
    requires |h| == HEAD
  {
    FromLe32(h[8..12])
  }

  /** The block with a given header image and body. */
  function FromImage(h: bytes, body: bytes): Block
    requires |h| == HEAD
  {
    Block(FromLe32(h[0..4]), FromLe32(h[4..8]), h[12], h[13..16], body)
  }

  lemma ImageRoundTrip(b: Block)
    requires WellFormed(b)
    ensures HeadLen(HeadBytes(b)) == |b.body| && FromImage(HeadBytes(b), b.body) == b
  {
    var h := HeadBytes(b);
    assert h[0..4] == Le32(b.fd) && h[4..8] == Le32(b.id) && h[8..12] == Le32(|b.body|);
    assert h[12] == b.typ && h[13..16] == b.pad;
    Le32RoundTrip(b.fd);
    Le32RoundTrip(b.id);
    Le32RoundTrip(|b.body|);
  }

  /** Where the fields lie: descriptor, id and length in four bytes each, lowest first, then the type. */
  lemma HeadLayout(b: Block)
    requires WellFormed(b)
    ensures var h := HeadBytes(b);
            && |h| == 16 && FromLe32(h[0..4]) == b.fd && FromLe32(h[4..8]) == b.id
            && FromLe32(h[8..12]) == |b.body| && h[12] == b.typ
  {
    var h := HeadBytes(b);
    assert h[0..4] == Le32(b.fd) && h[4..8] == Le32(b.id) && h[8..12] == Le32(|b.body|);
    Le32RoundTrip(b.fd);
    Le32RoundTrip(b.id);
    Le32RoundTrip(|b.body|);
  }

  // ----- positions -----

  /** The slot of the x-th byte ever written to a ring of the given size. */
  function Slot(x: nat, size: nat): (i: nat)
    requires size > 0
    ensures i < size
  {
    x % size
  }

  /** The stored position after x bytes in all: 0 at the start, then 1 to size, never 0 again. */
  function Pos(x: nat, size: nat): (p: nat)
    requires size > 0
    ensures p <= size
  {
    if x == 0 then 0 else (x - 1) % size + 1
  }

  /** Moving a position over n bytes, as push and pull compute it. */
  function Advance(pos: nat, n: nat, size: nat): nat
    requires pos <= size && n <= size
  {
    if pos + n <= size then pos + n else n - (size - pos)
  }

  /** The slot of the k-th byte copied from a position on, the copy wrapping at the end. */
  function Wrap(pos: nat, k: nat, size: nat): nat
    requires pos <= size && k < size
  {
    if pos + k < size then pos + k else pos + k - size
  }

  lemma ModAdd(x: nat, n: nat, size: nat)
    requires size > 0 && n <= size
    ensures (x + n) % size == if x % size + n < size then x % size + n
                              else if x % size + n < 2 * size then x % size + n - size else 0
  {
    var q, m := x / size, x % size;
    assert x == size * q + m;
    if m + n < size {
      ModIs(x + n, size, q, m + n);
    } else {
      assert x + n == size * (q + 1) + (m + n - size);
      ModIs(x + n, size, q + 1, m + n - size);
    }
  }

  lemma PosAdvance(x: nat, n: nat, size: nat)
    requires size > 0 && n <= size
    ensures Pos(x + n, size) == Advance(Pos(x, size), n, size)
  {
    if x > 0 {
      ModAdd(x - 1, n, size);
    } else if n > 0 {
      ModIs(n - 1, size, 0, n - 1);
    }
  }

  lemma SlotWrap(x: nat, k: nat, size: nat)
    requires size > 0 && k < size
    ensures Slot(x + k, size) == Wrap(Pos(x, size), k, size)
  {
    if x > 0 {
      ModAdd(x - 1, 1 + k, size);
    } else {
      ModIs(k, size, 0, k);
    }
  }

  /** Within one turn of the ring, different bytes have different slots. */
  lemma SlotsDistinct(x: nat, y: nat, size: nat)
    requires size > 0 && x < y < x + size
    ensures Slot(x, size) != Slot(y, size)
  {
    ModAdd(x, y - x, size);
  }

  /** Bytes in use and bytes free, from the two stored positions. */
  function Used(w: nat, r: nat, size: nat): int {
    if w >= r then w - r else size - r + w
  }

  function Free(w: nat, r: nat, size: nat): int {
    if w >= r then size - w + r else r - w
  }

  /** As long as less than a full ring is in use the positions tell how much: empty is never mistaken for full. */
  lemma UsedIsExact(read: nat, written: nat, size: nat)
    requires size > 0 && read <= written < read + size
    ensures var w, r := Pos(written, size), Pos(read, size);
            Used(w, r, size) == written - read && Free(w, r, size) == size - (written - read)
  {
    PosAdvance(read, written - read, size);
  }

  // ----- ring contents -----

  /** The ring holds data from its x-th byte on. */
  ghost predicate Holds(base: bytes, x: nat, data: bytes) {
    |base| > 0 && forall k :: 0 <= k < |data| ==> base[Slot(x + k, |base|)] == data[k]
  }

  /** A byte written outside the data's turn of the ring leaves the data alone. */
  lemma HoldsPut(base: bytes, x: nat, data: bytes, y: nat, b: byte)
    requires Holds(base, x, data)
    requires x + |data| <= y < x + |base|
    ensures Holds(base[Slot(y, |base|) := b], x, data)
  {
    hide Slot;
    var base' := base[Slot(y, |base|) := b];
    forall k | 0 <= k < |data| ensures base'[Slot(x + k, |base|)] == data[k] {
      SlotsDistinct(x + k, y, |base|);
      assert base[Slot(x + k, |base|)] == data[k];
    }
  }

  lemma HoldsOne(base: bytes, x: nat, b: byte)
    requires |base| > 0 && base[Slot(x, |base|)] == b
    ensures Holds(base, x, [b])
  {
  }

  lemma HoldsJoin(base: bytes, x: nat, a: bytes, b: bytes)
    ensures Holds(base, x, a + b) <==> Holds(base, x, a) && Holds(base, x + |a|, b)
  {
    hide Slot;
    if Holds(base, x, a + b) {
      forall k | 0 <= k < |a| ensures base[Slot(x + k, |base|)] == a[k] {
        assert (a + b)[k] == a[k];
      }
      forall k | 0 <= k < |b| ensures base[Slot(x + |a| + k, |base|)] == b[k] {
        assert (a + b)[|a| + k] == b[k];
        assert x + (|a| + k) == x + |a| + k;
      }
    }
    if Holds(base, x, a) && Holds(base, x + |a|, b) {
      forall k | 0 <= k < |a + b| ensures base[Slot(x + k, |base|)] == (a + b)[k] {
        if k >= |a| {
          assert x + |a| + (k - |a|) == x + k;
          assert base[Slot(x + |a| + (k - |a|), |base|)] == b[k - |a|];
        }
      }
    }
  }

  function Images(queue: seq<Block>): bytes
    requires forall i :: 0 <= i < |queue| ==> WellFormed(queue[i])
  {
    if queue == [] then [] else Image(queue[0]) + Images(queue[1..])
  }

  lemma {:induction false} ImagesAppend(queue: seq<Block>, b: Block)
    requires (forall i :: 0 <= i < |queue| ==> WellFormed(queue[i])) && WellFormed(b)
    ensures Images(queue + [b]) == Images(queue) + Image(b)
  {
    if queue == [] {
      assert [b][1..] == [];
    } else {
      assert (queue + [b])[1..] == queue[1..] + [b];
      ImagesAppend(queue[1..], b);
    }
  }

  /** Every block takes at least sixteen bytes. */
  lemma {:induction false} ImagesLength(queue: seq<Block>)
    requires forall i :: 0 <= i < |queue| ==> WellFormed(queue[i])
    ensures |Images(queue)| >= HEAD * |queue|
  {
    if queue != [] {
      ImagesLength(queue[1..]);
    }
  }
}
