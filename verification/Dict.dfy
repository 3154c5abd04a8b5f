/** The chained hash table of dict.c: buckets of linked entries, relinked in place when the table grows. */
module Dict {
  import opened Bytes

  const INITIAL_SIZE := 4
  const LONG_MAX := 0x7fff_ffff_ffff_ffff

  function Pow2(k: nat): (p: nat)
    ensures p >= 1
  {
    if k == 0 then 1 else 2 * Pow2(k - 1)
  }

  lemma {:induction false} Pow2Monotone(a: nat, b: nat)
    requires a < b
    ensures 2 * Pow2(a) <= Pow2(b)
    decreases b
  {
    if a + 1 < b {
      Pow2Monotone(a, b - 1);
    }
  }

  /** Bitwise and. */
  function And(a: nat, b: nat): nat {
    if a == 0 || b == 0 then 0 else 2 * And(a / 2, b / 2) + (if a % 2 == 1 && b % 2 == 1 then 1 else 0)
  }

  /** Masking with size - 1 keeps the index inside a table whose size is a power of two. */
  lemma {:induction false} AndMask(h: nat, k: nat)
    ensures And(h, Pow2(k) - 1) < Pow2(k)
    ensures And(h, Pow2(k) - 1) == h % Pow2(k)
  {
    if k > 0 {
      AndMask(h / 2, k - 1);
      var m := Pow2(k - 1);
      assert (2 * m - 1) / 2 == m - 1 && (k > 1 ==> (2 * m - 1) % 2 == 1);
      HalfMod(h, m);
      if h == 0 {
        ZeroMod(2 * m);
      }
    }
  }

  lemma ZeroMod(m: nat)
    requires m > 0
    ensures 0 % m == 0
  {
  }

  lemma HalfMod(h: nat, m: nat)
    requires m > 0
    ensures h % (2 * m) == 2 * (h / 2 % m) + h % 2
  {
    var q, r := h / 2 / m, h / 2 % m;
    assert h == 2 * (m * q + r) + h % 2 == 2 * m * q + (2 * r + h % 2);
    ModIs(h, 2 * m, q, 2 * r + h % 2);
  }

  /** _dictNextPower: the least power of two from 4 on that is not below size. */
  method NextPower(size: nat) returns (i: nat, ghost k: nat)
    requires size < LONG_MAX
    ensures i == Pow2(k) && i >= size && i >= INITIAL_SIZE && (i == INITIAL_SIZE || i < 2 * size)
  {
    i, k := INITIAL_SIZE, 2;
    assert Pow2(2) == 4;
    while i < size
      invariant i == Pow2(k) && i >= INITIAL_SIZE && (i == INITIAL_SIZE || i < 2 * size)
      decreases size - i
    {
      i := i * 2;
      k := k + 1;
    }
  }

  /** An entry; the entries allocated are a map from addresses to entries. */
  datatype Entry<K, V> = Entry(key: K, val: V, next: Ref)

  type Heap<K, V> = map<nat, Entry<K, V>>

  /** The addresses c, linked one to the next from head on. */
  ghost predicate Chain<K, V>(heap: Heap<K, V>, head: Ref, c: seq<nat>)
    decreases |c|
  {
    if c == [] then head == Null
    else head == At(c[0]) && c[0] in heap && c[0] !in c[1..] && Chain(heap, heap[c[0]].next, c[1..])
  }

  /** A bucket: a chain of entries whose keys belong to bucket i. */
  ghost predicate BucketOk<K, V>(heap: Heap<K, V>, head: Ref, c: seq<nat>, hash: K -> nat, size: nat, i: nat)
    requires size > 0
  {
    Chain(heap, head, c) && forall id :: id in c ==> id in heap && And(hash(heap[id].key), size - 1) == i
  }

  lemma {:induction false} ChainFrame<K, V>(heap: Heap<K, V>, heap': Heap<K, V>, head: Ref, c: seq<nat>)
    requires Chain(heap, head, c)
    requires forall id :: id in c && id in heap ==> id in heap' && heap'[id].next == heap[id].next
    ensures Chain(heap', head, c)
    decreases |c|
  {
    if c != [] {
      ChainFrame(heap, heap', heap[c[0]].next, c[1..]);
    }
  }

  /** A bucket depends on its own entries' keys and links only. */
  lemma BucketFrame<K, V>(heap: Heap<K, V>, heap': Heap<K, V>, head: Ref, c: seq<nat>,
                          hash: K -> nat, size: nat, i: nat)
    requires size > 0 && BucketOk(heap, head, c, hash, size, i)
    requires forall id :: id in c && id in heap ==> id in heap' && heap'[id].(val := heap[id].val) == heap[id]
    ensures BucketOk(heap', head, c, hash, size, i)
  {
    forall id | id in c && id in heap
      ensures id in heap' && heap'[id].next == heap[id].next && heap'[id].key == heap[id].key
    {
      assert heap'[id].(val := heap[id].val) == heap[id];
    }
    ChainFrame(heap, heap', head, c);
  }

  lemma BucketCons<K, V>(heap: Heap<K, V>, id: nat, c: seq<nat>, hash: K -> nat, size: nat, i: nat)
    requires size > 0 && id in heap && id !in c && BucketOk(heap, heap[id].next, c, hash, size, i)
    requires And(hash(heap[id].key), size - 1) == i
    ensures BucketOk(heap, At(id), [id] + c, hash, size, i)
  {
    assert ([id] + c)[1..] == c;
  }

  lemma BucketUncons<K, V>(heap: Heap<K, V>, head: Ref, c: seq<nat>, hash: K -> nat, size: nat, i: nat)
    requires size > 0 && BucketOk(heap, head, c, hash, size, i)
    ensures head == Null <==> c == []
    ensures c != [] ==> head == At(c[0]) && c[0] in heap && c[0] !in c[1..] && c == [c[0]] + c[1..]
                        && BucketOk(heap, heap[c[0]].next, c[1..], hash, size, i)
  {
  }

  /** Taking an entry out of the middle of a chain: the entry before it, or the head, skips it. */
  lemma {:induction false} ChainSkip<K, V>(heap: Heap<K, V>, heap': Heap<K, V>, head: Ref,
                                           a: seq<nat>, c: seq<nat>)
    requires a != [] && c != [] && Chain(heap, head, a + c)
    requires var p := a[|a| - 1];
             c[0] in heap && p in heap && heap' == heap[p := heap[p].(next := heap[c[0]].next)]
    ensures Chain(heap', head, a + c[1..])
    decreases |a|
  {
    var w := a + c;
    assert w[0] == a[0] && w[1..] == a[1..] + c && (a + c[1..])[1..] == a[1..] + c[1..];
    if |a| == 1 {
      assert w[1..] == c && c[0] in w[1..];
      assert Chain(heap, At(c[0]), c);
      assert a[0] !in c[1..];
      ChainFrame(heap, heap', heap[c[0]].next, c[1..]);
    } else {
      assert a[1..][|a[1..]| - 1] == a[|a| - 1] && a[|a| - 1] in w[1..];
      ChainSkip(heap, heap', heap[a[0]].next, a[1..], c);
    }
  }

  /** The table: bucket i holds chain i, and every entry of ids is in the bucket of its key. */
  ghost predicate Chained<K, V>(heap: Heap<K, V>, table: seq<Ref>, chains: seq<seq<nat>>, hash: K -> nat,
                                size: nat, ids: set<nat>)
  {
    && |table| == |chains| == size && ids <= heap.Keys
    && (forall i :: 0 <= i < size ==> BucketOk(heap, table[i], chains[i], hash, size, i))
    && (forall i, id :: 0 <= i < size && id in chains[i] ==> id in ids)
    && (forall id :: id in ids ==> size > 0 && And(hash(heap[id].key), size - 1) < size
                                   && id in chains[And(hash(heap[id].key), size - 1)])
  }

  /** A new entry, or an entry moved here from another table, in front of its bucket. */
  lemma ChainedPut<K, V>(heap: Heap<K, V>, heap': Heap<K, V>, table: seq<Ref>, chains: seq<seq<nat>>,
                         hash: K -> nat, size: nat, ids: set<nat>, id: nat, h: nat)
    requires Chained(heap, table, chains, hash, size, ids) && id !in ids && h < size
    requires id in heap' && heap'[id].next == table[h] && And(hash(heap'[id].key), size - 1) == h
    requires forall x :: x in ids ==> x in heap' && heap'[x] == heap[x]
    ensures Chained(heap', table[h := At(id)], chains[h := [id] + chains[h]], hash, size, ids + {id})
  {
    var chains' := chains[h := [id] + chains[h]];
    forall i | 0 <= i < size ensures BucketOk(heap', table[i], chains[i], hash, size, i) {
      BucketFrame(heap, heap', table[i], chains[i], hash, size, i);
    }
    BucketCons(heap', id, chains[h], hash, size, h);
    hide BucketOk;
  }

  /** The part of the old table not moved yet while the table grows: the rest c of bucket i from he on,
      and the buckets from next on. */
  ghost predicate Left<K, V>(heap: Heap<K, V>, table: seq<Ref>, chains: seq<seq<nat>>, hash: K -> nat, size: nat,
                             rest: set<nat>, he: Ref, c: seq<nat>, i: nat, next: nat)
    requires size > 0
  {
    && |table| == |chains| == size && rest <= heap.Keys && next <= size && i < next
    && BucketOk(heap, he, c, hash, size, i)
    && (forall id :: id in c ==> id in rest)
    && (forall b :: next <= b < size ==> BucketOk(heap, table[b], chains[b], hash, size, b))
    && (forall b, id :: next <= b < size && id in chains[b] ==> id in rest)
    && (forall id :: id in rest ==> id in c || (next <= And(hash(heap[id].key), size - 1) < size
                                                && id in chains[And(hash(heap[id].key), size - 1)]))
  }

  /** Relinking the next entry elsewhere leaves the others where they were. */
  lemma LeftStep<K, V>(heap: Heap<K, V>, heap': Heap<K, V>, table: seq<Ref>, chains: seq<seq<nat>>,
                       hash: K -> nat, size: nat, rest: set<nat>, he: Ref, c: seq<nat>, i: nat, next: nat)
    requires size > 0 && Left(heap, table, chains, hash, size, rest, he, c, i, next) && c != []
    requires c[0] in heap && forall x :: x in heap && x != c[0] ==> x in heap' && heap'[x] == heap[x]
    requires heap'.Keys == heap.Keys
    ensures Left(heap', table, chains, hash, size, rest - {c[0]}, heap[c[0]].next, c[1..], i, next)
  {
    BucketUncons(heap, he, c, hash, size, i);
    BucketFrame(heap, heap', heap[c[0]].next, c[1..], hash, size, i);
    forall b | next <= b < size ensures c[0] !in chains[b] && BucketOk(heap', table[b], chains[b], hash, size, b) {
      BucketFrame(heap, heap', table[b], chains[b], hash, size, b);
    }
    hide BucketOk;
  }

  lemma LeftStart<K, V>(heap: Heap<K, V>, table: seq<Ref>, chains: seq<seq<nat>>, hash: K -> nat,
                        size: nat, ids: set<nat>)
    requires size > 0 && Chained(heap, table, chains, hash, size, ids)
    ensures Left(heap, table, chains, hash, size, ids, table[0], chains[0], 0, 1)
  {
    hide BucketOk;
  }

  lemma LeftNext<K, V>(heap: Heap<K, V>, table: seq<Ref>, chains: seq<seq<nat>>, hash: K -> nat, size: nat,
                       rest: set<nat>, i: nat, next: nat)
    requires size > 0 && Left(heap, table, chains, hash, size, rest, Null, [], i, next)
    ensures next < size ==> Left(heap, table, chains, hash, size, rest, table[next], chains[next], next, next + 1)
    ensures next == size ==> rest == {}
  {
    hide BucketOk;
  }

  lemma NothingChained<K, V>(heap: Heap<K, V>, hash: K -> nat, size: nat)
    requires size > 0
    ensures Chained(heap, seq(size, _ => Null), seq(size, _ => []), hash, size, {})
  {
  }

  /** The entries hold exactly the contents, no key twice. */
  ghost predicate Represents<K, V>(heap: Heap<K, V>, contents: map<K, V>) {
    && (forall id, jd :: id in heap && jd in heap && heap[id].key == heap[jd].key ==> id == jd)
    && (forall id :: id in heap ==> heap[id].key in contents && contents[heap[id].key] == heap[id].val)
    && contents.Keys == set id | id in heap :: heap[id].key
  }

  class Table<K(==, !new), V(!new)> {
    const hash: K -> nat
    var heap: Heap<K, V>
    var table: seq<Ref>
    var size: nat
    var sizemask: nat
    var used: nat

    ghost var logSize: nat
    ghost var chains: seq<seq<nat>>
    ghost var contents: map<K, V>

    ghost predicate Sized()
      reads this
    {
      && |table| == size && size <= TWO31
      && (size > 0 ==> size == Pow2(logSize) && sizemask == size - 1 && size >= INITIAL_SIZE)
      && used == |heap| <= size
    }

    ghost predicate Valid()
      reads this
    {
      Sized() && Chained(heap, table, chains, hash, size, heap.Keys) && Represents(heap, contents)
    }

    /** dictCreate */
    constructor (hash: K -> nat)
      ensures Valid() && contents == map[] && size == 0 && this.hash == hash
    {
      this.hash := hash;
      heap, table, size, sizemask, used := map[], [], 0, 0, 0;
      logSize, chains, contents := 0, [], map[];
    }

    lemma BucketInRange(key: K)
      requires Sized() && size > 0
      ensures And(hash(key), sizemask) < size
    {
      AndMask(hash(key), logSize);
    }

    /** dictFind: the entry of the key, walking its bucket's chain. */
    method Find(key: K) returns (he: Ref)
      requires Valid()
      ensures he == Null <==> key !in contents
      ensures he != Null ==> he.id in heap && heap[he.id].key == key && heap[he.id].val == contents[key]
    {
      if size == 0 {
        return Null;
      }
      BucketInRange(key);
      var h := And(hash(key), sizemask);
      he := Search(h, key);
    }

    /** The search loop shared by dictFind and _dictKeyIndex. */
    method Search(h: nat, key: K) returns (he: Ref)
      requires Valid() && size > 0 && h == And(hash(key), sizemask) < size
      ensures he == Null <==> key !in contents
      ensures he != Null ==> he.id in heap && heap[he.id].key == key && heap[he.id].val == contents[key]
    {
      hide Chained, Represents, BucketOk, And, Pow2;
      ChainedSizes(heap, table, chains, hash, size, heap.Keys);
      OnlyInBucket(heap, table, chains, hash, size, key, h);
      he := table[h];
      ghost var c := chains[h];
      while he != Null
        invariant BucketOk(heap, he, c, hash, size, h)
        invariant forall id :: id in heap && heap[id].key == key ==> id in c
        decreases |c|
      {
        BucketUncons(heap, he, c, hash, size, h);
        if heap[he.id].key == key {
          PresentKey(heap, contents, he.id);
          return;
        }
        he, c := heap[he.id].next, c[1..];
      }
      BucketUncons(heap, he, c, hash, size, h);
      AbsentKey(heap, contents, key);
    }

    /** One entry is relinked to the front of its bucket in the new table. */
    method Relink(id: nat, ntable: seq<Ref>, ghost nchains: seq<seq<nat>>, ghost moved: set<nat>, realsize: nat,
                  ghost k: nat)
      returns (ntable': seq<Ref>, ghost nchains': seq<seq<nat>>)
      requires id in heap && id !in moved && realsize == Pow2(k)
      requires Chained(heap, ntable, nchains, hash, realsize, moved)
      modifies this`heap
      ensures id in heap && heap == old(heap)[id := old(heap)[id].(next := heap[id].next)]
              && heap.Keys == old(heap.Keys)
      ensures Chained(heap, ntable', nchains', hash, realsize, moved + {id})
    {
      hide Chained;
      AndMask(hash(heap[id].key), k);
      var h := And(hash(heap[id].key), realsize - 1);
      ghost var heap0 := heap;
      ChainedSizes(heap, ntable, nchains, hash, realsize, moved);
      heap := heap[id := heap[id].(next := ntable[h])];
      ChainedPut(heap0, heap, ntable, nchains, hash, realsize, moved, id, h);
      ntable' := ntable[h := At(id)];
      nchains' := nchains[h := [id] + nchains[h]];
    }

    /** Every entry of bucket i is relinked, front first. */
    method MoveBucket(i: nat, ntable0: seq<Ref>, ghost nchains0: seq<seq<nat>>, ghost moved0: set<nat>,
                      ghost rest0: set<nat>, realsize: nat, ghost k: nat)
      returns (ntable: seq<Ref>, ghost nchains: seq<seq<nat>>, ghost moved: set<nat>, ghost rest: set<nat>)
      requires i < size == |table| == |chains| && realsize == Pow2(k) && Parts(heap, used, moved0, rest0)
      requires Chained(heap, ntable0, nchains0, hash, realsize, moved0)
      requires Left(heap, table, chains, hash, size, rest0, table[i], chains[i], i, i + 1)
      modifies this`heap, this`used
      ensures SameBut(old(heap), heap) && Parts(heap, used, moved, rest)
      ensures Chained(heap, ntable, nchains, hash, realsize, moved)
      ensures Left(heap, table, chains, hash, size, rest, Null, [], i, i + 1)
    {
      hide Chained, Left, Represents, Pow2, BucketOk, And, SameBut, Parts;
      ntable, nchains, moved, rest := ntable0, nchains0, moved0, rest0;
      var he := table[i];
      ghost var c, heap0 := chains[i], heap;
      SameButSelf(heap);
      while he != Null
        invariant SameBut(heap0, heap) && Parts(heap, used, moved, rest)
        invariant Chained(heap, ntable, nchains, hash, realsize, moved)
        invariant Left(heap, table, chains, hash, size, rest, he, c, i, i + 1)
        decreases |c|
      {
        LeftHead(heap, table, chains, hash, size, rest, he, c, i, i + 1);
        PartsStep(heap, used, moved, rest, c[0]);
        ghost var heap1, id := heap, c[0];
        var nextHe := heap[he.id].next;
        ntable, nchains := Relink(he.id, ntable, nchains, moved, realsize, k);
        LeftStep(heap1, heap, table, chains, hash, size, rest, he, c, i, i + 1);
        SameButStep(heap0, heap1, heap, id);
        used := used - 1;
        moved, rest, c := moved + {id}, rest - {id}, c[1..];
        he := nextHe;
      }
      LeftHead(heap, table, chains, hash, size, rest, he, c, i, i + 1);
    }

    /** The loop of dictExpand over the buckets, relinking every entry into a new table. */
    method Rehash(realsize: nat, ghost k: nat) returns (ntable: seq<Ref>, ghost nchains: seq<seq<nat>>)
      requires |table| == size && used == |heap| && realsize == Pow2(k)
      requires Chained(heap, table, chains, hash, size, heap.Keys)
      modifies this`heap, this`used
      ensures heap.Keys == old(heap.Keys) && SameBut(old(heap), heap) && used == 0
      ensures Chained(heap, ntable, nchains, hash, realsize, heap.Keys)
    {
      hide Chained, Left, Represents, Pow2, BucketOk, And, SameBut, Parts;
      SameButSelf(heap);
      ChainedSizes(heap, table, chains, hash, size, heap.Keys);
      ntable, nchains := seq(realsize, _ => Null), seq(realsize, _ => []);
      NothingChained(heap, hash, realsize);
      ghost var moved, rest, heap0 := {}, heap.Keys, heap;
      PartsStart(heap);
      if size > 0 {
        LeftStart(heap, table, chains, hash, size, heap.Keys);
      } else {
        EmptyTable(heap, table, chains, hash);
      }
      var i := 0;
      while i < size && used > 0
        invariant SameBut(heap0, heap) && Parts(heap, used, moved, rest)
        invariant Chained(heap, ntable, nchains, hash, realsize, moved)
        invariant i <= size == |table| == |chains|
        invariant if i < size then Left(heap, table, chains, hash, size, rest, table[i], chains[i], i, i + 1)
                  else rest == {}
      {
        ghost var heap1 := heap;
        ntable, nchains, moved, rest := MoveBucket(i, ntable, nchains, moved, rest, realsize, k);
        SameButThen(heap0, heap1, heap);
        LeftNext(heap, table, chains, hash, size, rest, i, i + 1);
        i := i + 1;
      }
      PartsEnd(heap, used, moved, rest);
      SameKeys(heap0, heap);
    }

    /** dictExpand, for a size the caller has found large enough: every entry is relinked, front first,
        into the chain of its bucket in a new table. Keys, values and contents do not change. */
    method Expand(newSize: nat) returns (ok: bool)
      requires Valid() && newSize <= TWO31
      modifies this
      ensures Valid() && contents == old(contents)
      ensures ok == (old(used) <= newSize)
      ensures !ok ==> unchanged(this)
      ensures ok ==> size >= newSize && size >= INITIAL_SIZE && (size == INITIAL_SIZE || size < 2 * newSize)
      ensures heap.Keys == old(heap.Keys) && SameBut(old(heap), heap)
    {
      hide Chained, Represents, Pow2, SameBut;
      SameButSelf(heap);
      var realsize, k := NextPower(newSize);
      if used > newSize {
        return false;
      }
      SmallPower(k, newSize);
      var nused := used;
      ghost var heap0 := heap;
      var ntable, nchains := Rehash(realsize, k);
      StillRepresents(heap0, heap, contents);
      SameKeys(heap0, heap);
      table, size, sizemask, used := ntable, realsize, realsize - 1, nused;
      chains, logSize := nchains, k;
      ChainedSizes(heap, ntable, nchains, hash, realsize, heap.Keys);
      return true;
    }

    lemma SmallPower(k: nat, newSize: nat)
      requires newSize <= TWO31 && (Pow2(k) == INITIAL_SIZE || Pow2(k) < 2 * newSize)
      ensures Pow2(k) <= TWO31
    {
      Power31();
      if k > 31 {
        Pow2Monotone(31, k);
      } else if k < 31 {
        Pow2Monotone(k, 31);
      }
    }

    static function Grown(size: nat, used: nat): nat {
      if size == 0 then INITIAL_SIZE else if used == size then 2 * size else size
    }

    /** There is one power of two from n to 2 n - 1 when n is one itself. */
    static lemma PowersOnly(k: nat, j: nat)
      ensures Pow2(2) == INITIAL_SIZE && Pow2(j) == if j == 0 then 1 else 2 * Pow2(j - 1)
      ensures Pow2(j) <= Pow2(k) < 2 * Pow2(j) ==> k == j
    {
      if k < j {
        Pow2Monotone(k, j);
      } else if j < k {
        Pow2Monotone(j, k);
      }
    }

    /** _dictExpandIfNeeded: a first table of four buckets, then twice the size whenever it is full. */
    method ExpandIfNeeded()
      requires Valid() && used < TWO31
      modifies this
      ensures Valid() && contents == old(contents) && size > used && heap.Keys == old(heap.Keys)
      ensures size == Grown(old(size), old(used))
    {
      hide Chained, Represents, Pow2;
      if size == 0 {
        var ok := Expand(INITIAL_SIZE);
        PowersOnly(logSize, 2);
      } else if used == size {
        RoomToDouble();
        ghost var k := logSize;
        var ok := Expand(size * 2);
        PowersOnly(logSize, k + 1);
      }
    }

    lemma RoomToDouble()
      requires Sized() && 0 < size < TWO31
      ensures size * 2 <= TWO31
    {
      Power31();
      if logSize > 31 {
        Pow2Monotone(31, logSize);
      } else if logSize < 31 {
        Pow2Monotone(logSize, 31);
      }
    }

    /** _dictKeyIndex: the bucket a new entry goes to, or -1 when the key is there already. */
    method KeyIndex(key: K) returns (index: int)
      requires Valid() && used < TWO31
      modifies this
      ensures Valid() && contents == old(contents) && size > used && heap.Keys == old(heap.Keys)
      ensures size == Grown(old(size), old(used))
      ensures if key in contents then index == -1 else 0 <= index < size && index == And(hash(key), sizemask)
    {
      hide Chained, Represents;
      ExpandIfNeeded();
      BucketInRange(key);
      var h := And(hash(key), sizemask);
      var he := Search(h, key);
      index := if he != Null then -1 else h;
    }

    /** The new entry, at an address not in use, goes to the front of its bucket. */
    method Insert(index: nat, key: K, val: V, id: nat)
      requires Valid() && key !in contents && used < size && index < size && index == And(hash(key), sizemask)
      requires id !in heap
      modifies this
      ensures Valid() && contents == old(contents)[key := val] && size == old(size)
    {
      hide Chained, Represents;
      ghost var heap0 := heap;
      ChainedSizes(heap, table, chains, hash, size, heap.Keys);
      heap := heap[id := Entry(key, val, table[index])];
      ChainedPut(heap0, heap, table, chains, hash, size, heap0.Keys, id, index);
      assert heap.Keys == heap0.Keys + {id};
      RepresentsPut(heap0, contents, id, heap[id]);
      table := table[index := At(id)];
      chains := chains[index := [id] + chains[index]];
      contents := contents[key := val];
      used := used + 1;
    }

    /** dictAdd; id is the address malloc returns. */
    method Add(key: K, val: V, id: nat) returns (ok: bool)
      requires Valid() && used < TWO31 && id !in heap
      modifies this
      ensures Valid() && ok == (key !in old(contents)) && size == Grown(old(size), old(used))
      ensures contents == if ok then old(contents)[key := val] else old(contents)
    {
      hide Chained, Represents;
      var index := KeyIndex(key);
      if index == -1 {
        return false;
      }
      Insert(index, key, val, id);
      return true;
    }

    /** dictReplace: adds the key, or updates the value of the entry it has. */
    method Replace(key: K, val: V, id: nat) returns (added: bool)
      requires Valid() && used < TWO31 && id !in heap
      modifies this
      ensures Valid() && added == (key !in old(contents))
      ensures contents == old(contents)[key := val]
    {
      hide Chained, Represents;
      added := Add(key, val, id);
      if !added {
        var entry := Find(key);
        ghost var heap0 := heap;
        heap := heap[entry.id := heap[entry.id].(val := val)];
        assert heap.Keys == heap0.Keys;
        ChainedValue(heap0, heap, table, chains, hash, size, entry.id);
        RepresentsUpdate(heap0, contents, entry.id, val);
        contents := contents[key := val];
      }
    }

    /** The entry de, after prevde in bucket h or first there, is skipped and freed. */
    method Unlink(h: nat, prevde: Ref, de: Ref, ghost a: seq<nat>, ghost c: seq<nat>)
      requires Valid() && h < size == |chains| && chains[h] == a + c && c != [] && de == At(c[0]) && c[0] in heap
      requires prevde == if a == [] then Null else At(a[|a| - 1])
      modifies this
      ensures Valid() && contents == old(contents) - {old(heap)[c[0]].key}
    {
      hide Chained, Represents, BucketOk, Pow2;
      ghost var heap0, table0, key := heap, table, heap[de.id].key;
      ChainedSizes(heap, table, chains, hash, size, heap.Keys);
      InChain(heap, table[h], chains[h], hash, size, h);
      var n := heap[de.id].next;
      if prevde != Null {
        assert a[|a| - 1] in chains[h];
        heap := heap[prevde.id := heap[prevde.id].(next := n)];
      } else {
        table := table[h := n];
      }
      heap := heap - {de.id};
      SkipKeeps(heap0, heap, table0, table, chains, contents, hash, size, h, a, c);
      chains := chains[h := a + c[1..]];
      contents := contents - {key};
      used := used - 1;
    }

    /** dictDelete: unlinks the key's entry from its chain and frees it. */
    method Delete(key: K) returns (ok: bool)
      requires Valid()
      modifies this
      ensures Valid() && ok == (key in old(contents))
      ensures contents == old(contents) - {key}
    {
      hide Chained, Represents, BucketOk;
      if size == 0 {
        NoContents();
        return false;
      }
      BucketInRange(key);
      var h := And(hash(key), sizemask);
      ChainedSizes(heap, table, chains, hash, size, heap.Keys);
      OnlyInBucket(heap, table, chains, hash, size, key, h);
      var de, prevde := table[h], Null;
      ghost var a, c := [], chains[h];
      assert a + c == c;
      while de != Null
        invariant unchanged(this) && chains[h] == a + c && BucketOk(heap, de, c, hash, size, h)
        invariant prevde == if a == [] then Null else At(a[|a| - 1])
        invariant forall id :: id in heap && heap[id].key == key ==> id in c
        decreases |c|
      {
        BucketUncons(heap, de, c, hash, size, h);
        if heap[de.id].key == key {
          PresentKey(heap, contents, de.id);
          Unlink(h, prevde, de, a, c);
          return true;
        }
        assert a + c == a + [c[0]] + c[1..];
        prevde, de := de, heap[de.id].next;
        a, c := a + [c[0]], c[1..];
      }
      BucketUncons(heap, de, c, hash, size, h);
      AbsentKey(heap, contents, key);
      return false;
    }

    lemma NoContents()
      requires Valid() && size == 0
      ensures contents == map[]
    {
    }
  }

  /** Same entries, same keys and values; links may differ. */
  ghost predicate SameBut<K, V>(heap: Heap<K, V>, heap': Heap<K, V>) {
    heap'.Keys == heap.Keys && forall id :: id in heap ==> heap'[id] == heap[id].(next := heap'[id].next)
  }

  /** The entries are those moved already and the rest, counted by used. */
  ghost predicate Parts<K, V>(heap: Heap<K, V>, used: nat, moved: set<nat>, rest: set<nat>) {
    used == |rest| && moved + rest == heap.Keys && moved !! rest
  }

  lemma PartsStart<K, V>(heap: Heap<K, V>)
    ensures Parts(heap, |heap|, {}, heap.Keys)
  {
    assert |heap| == |heap.Keys|;
  }

  lemma PartsStep<K, V>(heap: Heap<K, V>, used: nat, moved: set<nat>, rest: set<nat>, id: nat)
    requires Parts(heap, used, moved, rest) && id in rest
    ensures id in heap && id !in moved && used > 0
    ensures forall heap': Heap<K, V> :: heap'.Keys == heap.Keys ==> Parts(heap', used - 1, moved + {id}, rest - {id})
  {
  }

  lemma PartsEnd<K, V>(heap: Heap<K, V>, used: nat, moved: set<nat>, rest: set<nat>)
    requires Parts(heap, used, moved, rest)
    ensures used == 0 <==> rest == {}
    ensures rest == {} ==> moved == heap.Keys
  {
  }

  lemma SameButSelf<K, V>(heap: Heap<K, V>)
    ensures SameBut(heap, heap)
  {
  }

  lemma SameButThen<K, V>(heap0: Heap<K, V>, heap1: Heap<K, V>, heap2: Heap<K, V>)
    requires SameBut(heap0, heap1) && SameBut(heap1, heap2)
    ensures SameBut(heap0, heap2)
  {
    forall id | id in heap0 ensures heap2[id] == heap0[id].(next := heap2[id].next) {
      assert heap1[id] == heap0[id].(next := heap1[id].next);
    }
  }

  lemma SameKeys<K, V>(heap: Heap<K, V>, heap': Heap<K, V>)
    requires SameBut(heap, heap')
    ensures heap'.Keys == heap.Keys && |heap'| == |heap|
  {
    assert |heap| == |heap.Keys| && |heap'| == |heap'.Keys|;
  }

  lemma EmptyTable<K, V>(heap: Heap<K, V>, table: seq<Ref>, chains: seq<seq<nat>>, hash: K -> nat)
    requires Chained(heap, table, chains, hash, 0, heap.Keys)
    ensures heap.Keys == {}
  {
    hide BucketOk;
  }

  lemma SameButStep<K, V>(heap0: Heap<K, V>, heap1: Heap<K, V>, heap2: Heap<K, V>, id: nat)
    requires SameBut(heap0, heap1) && id in heap1 && id in heap2
    requires heap2 == heap1[id := heap1[id].(next := heap2[id].next)]
    ensures SameBut(heap0, heap2)
  {
    SameButThen(heap0, heap1, heap2);
  }

  lemma ChainedSizes<K, V>(heap: Heap<K, V>, table: seq<Ref>, chains: seq<seq<nat>>, hash: K -> nat,
                           size: nat, ids: set<nat>)
    requires Chained(heap, table, chains, hash, size, ids)
    ensures |table| == |chains| == size && ids <= heap.Keys && forall i :: 0 <= i < size ==>
            BucketOk(heap, table[i], chains[i], hash, size, i)
  {
    hide BucketOk;
  }

  lemma LeftHead<K, V>(heap: Heap<K, V>, table: seq<Ref>, chains: seq<seq<nat>>, hash: K -> nat, size: nat,
                       rest: set<nat>, he: Ref, c: seq<nat>, i: nat, next: nat)
    requires size > 0 && Left(heap, table, chains, hash, size, rest, he, c, i, next)
    ensures if he == Null then c == [] else c != [] && he == At(c[0]) && c[0] in heap && c[0] in rest
  {
    BucketUncons(heap, he, c, hash, size, i);
    hide BucketOk;
  }

  lemma OnlyInBucket<K, V>(heap: Heap<K, V>, table: seq<Ref>, chains: seq<seq<nat>>, hash: K -> nat,
                           size: nat, key: K, h: nat)
    requires size > 0 && Chained(heap, table, chains, hash, size, heap.Keys) && h == And(hash(key), size - 1) < size
    ensures forall id :: id in heap && heap[id].key == key ==> id in chains[h]
  {
    hide BucketOk;
  }

  lemma PresentKey<K, V>(heap: Heap<K, V>, contents: map<K, V>, id: nat)
    requires Represents(heap, contents) && id in heap
    ensures heap[id].key in contents && contents[heap[id].key] == heap[id].val
  {
  }

  lemma AbsentKey<K, V>(heap: Heap<K, V>, contents: map<K, V>, key: K)
    requires Represents(heap, contents) && forall id :: id in heap ==> heap[id].key != key
    ensures key !in contents && contents - {key} == contents
  {
  }

  lemma StillRepresents<K, V>(heap: Heap<K, V>, heap': Heap<K, V>, contents: map<K, V>)
    requires Represents(heap, contents) && SameBut(heap, heap')
    ensures Represents(heap', contents)
  {
    forall id | id in heap' ensures heap'[id].key == heap[id].key && heap'[id].val == heap[id].val {
      assert heap'[id] == heap[id].(next := heap'[id].next);
    }
  }

  lemma RepresentsPut<K, V>(heap: Heap<K, V>, contents: map<K, V>, id: nat, e: Entry<K, V>)
    requires Represents(heap, contents) && id !in heap && e.key !in contents
    ensures Represents(heap[id := e], contents[e.key := e.val])
  {
    var heap' := heap[id := e];
    forall x | x in heap' ensures heap'[x].key == if x == id then e.key else heap[x].key {
    }
    assert heap'[id].key == e.key;
    assert (set x | x in heap' :: heap'[x].key) == (set x | x in heap :: heap[x].key) + {e.key};
  }

  lemma SameKeySet<K, V>(heap: Heap<K, V>, heap': Heap<K, V>)
    requires heap'.Keys == heap.Keys && forall x :: x in heap ==> heap'[x].key == heap[x].key
    ensures (set x | x in heap' :: heap'[x].key) == (set x | x in heap :: heap[x].key)
  {
  }

  lemma RepresentsUpdate<K, V>(heap: Heap<K, V>, contents: map<K, V>, id: nat, val: V)
    requires Represents(heap, contents) && id in heap
    ensures Represents(heap[id := heap[id].(val := val)], contents[heap[id].key := val])
  {
    var heap' := heap[id := heap[id].(val := val)];
    forall x | x in heap ensures x in heap' && heap'[x].key == heap[x].key && (x != id ==> heap'[x] == heap[x]) {
    }
    SameKeySet(heap, heap');
  }

  lemma RepresentsDrop<K, V>(heap: Heap<K, V>, heap': Heap<K, V>, contents: map<K, V>, id: nat)
    requires Represents(heap, contents) && id in heap && heap'.Keys == heap.Keys - {id}
    requires forall x :: x in heap' ==> heap'[x].key == heap[x].key && heap'[x].val == heap[x].val
    ensures Represents(heap', contents - {heap[id].key})
  {
    var c := contents - {heap[id].key};
    forall k | k in c ensures k in set x | x in heap' :: heap'[x].key {
      var x :| x in heap && heap[x].key == k;
      assert x in heap';
    }
    assert c.Keys == set x | x in heap' :: heap'[x].key;
  }

  /** Values play no part in the links. */
  lemma ChainedValue<K, V>(heap: Heap<K, V>, heap': Heap<K, V>, table: seq<Ref>, chains: seq<seq<nat>>,
                           hash: K -> nat, size: nat, id: nat)
    requires Chained(heap, table, chains, hash, size, heap.Keys) && id in heap
    requires id in heap' && heap' == heap[id := heap[id].(val := heap'[id].val)]
    ensures Chained(heap', table, chains, hash, size, heap'.Keys)
  {
    hide Chain, And;
    forall x | x in heap ensures x in heap' && heap'[x].(val := heap[x].val) == heap[x] && heap'[x].key == heap[x].key {
    }
    assert heap'.Keys == heap.Keys;
    forall i | 0 <= i < size ensures BucketOk(heap', table[i], chains[i], hash, size, i) {
      BucketFrame(heap, heap', table[i], chains[i], hash, size, i);
    }
    hide BucketOk;
  }

  lemma InChain<K, V>(heap: Heap<K, V>, head: Ref, c: seq<nat>, hash: K -> nat, size: nat, i: nat)
    requires size > 0 && BucketOk(heap, head, c, hash, size, i)
    ensures forall id :: id in c ==> id in heap
  {
    hide Chain;
  }

  /** heap' is heap with the entry after the chain a skipped and freed. */
  ghost predicate Skips<K, V>(heap: Heap<K, V>, heap': Heap<K, V>, a: seq<nat>, de: nat)
    requires de in heap && (a != [] ==> a[|a| - 1] in heap)
  {
    heap' == (if a == [] then heap else heap[a[|a| - 1] := heap[a[|a| - 1]].(next := heap[de].next)]) - {de}
  }

  lemma SkipsKeys<K, V>(heap: Heap<K, V>, heap': Heap<K, V>, a: seq<nat>, de: nat)
    requires de in heap && (a != [] ==> a[|a| - 1] in heap)
    requires Skips(heap, heap', a, de)
    ensures heap'.Keys == heap.Keys - {de} && |heap'| == |heap| - 1
    ensures forall x :: x in heap' ==> heap'[x].key == heap[x].key && heap'[x].val == heap[x].val
  {
    assert heap'.Keys == heap.Keys - {de};
    assert |heap'| == |heap'.Keys| && |heap| == |heap.Keys|;
  }

  lemma BucketSkip<K, V>(heap: Heap<K, V>, heap': Heap<K, V>, head: Ref, a: seq<nat>, c: seq<nat>,
                         hash: K -> nat, size: nat, i: nat)
    requires size > 0 && BucketOk(heap, head, a + c, hash, size, i) && c != []
    requires c[0] in heap && (a != [] ==> a[|a| - 1] in heap) && Skips(heap, heap', a, c[0])
    ensures BucketOk(heap', if a == [] then heap[c[0]].next else head, a + c[1..], hash, size, i)
  {
    var w := a + c[1..];
    var heap1 := if a == [] then heap else heap[a[|a| - 1] := heap[a[|a| - 1]].(next := heap[c[0]].next)];
    var head' := if a == [] then heap[c[0]].next else head;
    ChainNoRepeat(heap, head, a, c);
    if a == [] {
      assert a + c == c && w == c[1..];
    } else {
      ChainSkip(heap, heap1, head, a, c);
    }
    forall id | id in w
      ensures id in a + c && id != c[0] && id in heap' && heap'[id] == heap1[id] && heap'[id].key == heap[id].key
    {
    }
    ChainFrame(heap1, heap', head', w);
    hide Chain;
  }

  /** A table stays in order when the entry found after the chain a of its bucket is skipped and freed. */
  lemma ChainedSkip<K, V>(heap: Heap<K, V>, heap': Heap<K, V>, table: seq<Ref>, table': seq<Ref>,
                          chains: seq<seq<nat>>, hash: K -> nat, size: nat, h: nat, a: seq<nat>, c: seq<nat>)
    requires size > 0 && h < size && Chained(heap, table, chains, hash, size, heap.Keys)
    requires chains[h] == a + c && c != [] && c[0] in heap && (a != [] ==> a[|a| - 1] in heap)
    requires Skips(heap, heap', a, c[0])
    requires table' == if a == [] then table[h := heap[c[0]].next] else table
    ensures Chained(heap', table', chains[h := a + c[1..]], hash, size, heap'.Keys)
  {
    hide Chained, Chain, And, BucketOk;
    ChainedSizes(heap, table, chains, hash, size, heap.Keys);
    var chains' := chains[h := a + c[1..]];
    assert c[0] in chains[h] && (a != [] ==> a[|a| - 1] in chains[h]);
    SkippedMembers(heap, table[h], a, c, hash, size, h);
    SkipsKeys(heap, heap', a, c[0]);
    forall i | 0 <= i < size ensures BucketOk(heap', table'[i], chains'[i], hash, size, i) {
      if i == h {
        BucketSkip(heap, heap', table[h], a, c, hash, size, h);
      } else {
        UnskippedBucket(heap, heap', table, chains, hash, size, h, i, a, c[0]);
      }
    }
    hide Skips;
    SkippedChains(heap, heap', table, chains, chains', hash, size, h, c[0]);
    ChainedIntro(heap', table', chains', hash, size);
  }

  lemma ChainedIntro<K, V>(heap: Heap<K, V>, table: seq<Ref>, chains: seq<seq<nat>>, hash: K -> nat, size: nat)
    requires |table| == |chains| == size > 0
    requires forall i :: 0 <= i < size ==> BucketOk(heap, table[i], chains[i], hash, size, i)
    requires forall i, id :: 0 <= i < size && id in chains[i] ==> id in heap
    requires forall id :: id in heap ==> And(hash(heap[id].key), size - 1) < size
                                         && id in chains[And(hash(heap[id].key), size - 1)]
    ensures Chained(heap, table, chains, hash, size, heap.Keys)
  {
    hide BucketOk, And;
  }

  lemma SkippedMembers<K, V>(heap: Heap<K, V>, head: Ref, a: seq<nat>, c: seq<nat>, hash: K -> nat, size: nat, i: nat)
    requires size > 0 && BucketOk(heap, head, a + c, hash, size, i) && c != []
    ensures forall id :: id in a + c[1..] <==> id in a + c && id != c[0]
  {
    ChainNoRepeat(heap, head, a, c);
    hide Chain;
  }

  lemma UnskippedBucket<K, V>(heap: Heap<K, V>, heap': Heap<K, V>, table: seq<Ref>, chains: seq<seq<nat>>,
                              hash: K -> nat, size: nat, h: nat, i: nat, a: seq<nat>, de: nat)
    requires Chained(heap, table, chains, hash, size, heap.Keys) && i < size && h < size && i != h
    requires de in heap && de in chains[h] && (a != [] ==> a[|a| - 1] in heap && a[|a| - 1] in chains[h])
    requires Skips(heap, heap', a, de)
    ensures BucketOk(heap', table[i], chains[i], hash, size, i)
  {
    hide Chain, And;
    OtherBucket(heap, table, chains, hash, size, h, i);
    BucketFrame(heap, heap', table[i], chains[i], hash, size, i);
  }

  /** Skipping one entry leaves every other one in the chain of its bucket. */
  lemma SkippedChains<K, V>(heap: Heap<K, V>, heap': Heap<K, V>, table: seq<Ref>, chains: seq<seq<nat>>,
                            chains': seq<seq<nat>>, hash: K -> nat, size: nat, h: nat, de: nat)
    requires size > 0 && h < size && Chained(heap, table, chains, hash, size, heap.Keys) && |chains'| == size
    requires chains' == chains[h := chains'[h]] && de in chains[h]
    requires forall id :: id in chains'[h] <==> id in chains[h] && id != de
    requires heap'.Keys == heap.Keys - {de} && forall x :: x in heap' ==> heap'[x].key == heap[x].key
    ensures forall i, id :: 0 <= i < size && id in chains'[i] ==> id in heap'
    ensures forall id :: id in heap' ==> And(hash(heap'[id].key), size - 1) < size
                                         && id in chains'[And(hash(heap'[id].key), size - 1)]
  {
    hide Chain, And;
    forall i, id | 0 <= i < size && id in chains'[i] ensures id in heap' {
      if i != h {
        OtherBucket(heap, table, chains, hash, size, h, i);
      }
      assert id in chains[i];
    }
    hide BucketOk;
    forall id | id in heap'
      ensures And(hash(heap'[id].key), size - 1) < size && id in chains'[And(hash(heap'[id].key), size - 1)]
    {
      assert heap'[id].key == heap[id].key;
    }
  }

  lemma SkipKeeps<K, V>(heap: Heap<K, V>, heap': Heap<K, V>, table: seq<Ref>, table': seq<Ref>,
                        chains: seq<seq<nat>>, contents: map<K, V>, hash: K -> nat, size: nat, h: nat, a: seq<nat>,
                        c: seq<nat>)
    requires size > 0 && h < size && Chained(heap, table, chains, hash, size, heap.Keys) && Represents(heap, contents)
    requires chains[h] == a + c && c != [] && c[0] in heap && (a != [] ==> a[|a| - 1] in heap)
    requires Skips(heap, heap', a, c[0])
    requires table' == if a == [] then table[h := heap[c[0]].next] else table
    ensures |heap'| == |heap| - 1 && |table'| == size
    ensures Chained(heap', table', chains[h := a + c[1..]], hash, size, heap'.Keys)
    ensures Represents(heap', contents - {heap[c[0]].key})
  {
    SkipsKeys(heap, heap', a, c[0]);
    hide Skips;
    ChainedSkip(heap, heap', table, table', chains, hash, size, h, a, c);
    hide Represents;
    RepresentsDrop(heap, heap', contents, c[0]);
    ChainedSizes(heap', table', chains[h := a + c[1..]], hash, size, heap'.Keys);
  }

  lemma OtherBucket<K, V>(heap: Heap<K, V>, table: seq<Ref>, chains: seq<seq<nat>>, hash: K -> nat,
                          size: nat, h: nat, i: nat)
    requires Chained(heap, table, chains, hash, size, heap.Keys) && i < size && h < size && i != h
    ensures forall id :: id in chains[h] ==> id !in chains[i]
  {
    hide Chain;
  }

  lemma {:induction false} ChainNoRepeat<K, V>(heap: Heap<K, V>, head: Ref, a: seq<nat>, c: seq<nat>)
    requires Chain(heap, head, a + c) && c != []
    ensures c[0] !in a + c[1..]
    decreases |a|
  {
    if a == [] {
      assert a + c == c && a + c[1..] == c[1..];
    } else {
      assert (a + c)[1..] == a[1..] + c && (a + c)[0] == a[0];
      ChainNoRepeat(heap, heap[a[0]].next, a[1..], c);
      assert c[0] in a[1..] + c;
      assert a + c[1..] == [a[0]] + (a[1..] + c[1..]);
    }
  }

  lemma Power31()
    ensures Pow2(31) == TWO31
  {
    assert Pow2(8) == 256;
    assert Pow2(16) == 65536;
    assert Pow2(24) == 16777216;
  }
}
