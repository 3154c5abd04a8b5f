/** Bytes, byte strings and the small datatypes every other module shares. */
module Bytes {

  /** An unsigned char. */
  type byte = b: int | 0 <= b < 256

  type bytes = seq<byte>

  datatype Option<+T> = None | Some(value: T)

  /** A pointer. */
  datatype Ref = Null | At(id: nat)

  const LF: byte := 10
  const CR: byte := 13
  const MINUS: byte := 45
  const ZERO: byte := 48
  const NINE: byte := 57

  const CRLF: bytes := [CR, LF]

  const TWO31 := 0x8000_0000
  const TWO32 := 0x1_0000_0000

  const INT_MAX := 0x7fff_ffff
  const LLONG_MAX := 0x7fff_ffff_ffff_ffff
  const LLONG_MIN := -0x8000_0000_0000_0000
  const ULLONG_MAX := 0xffff_ffff_ffff_ffff

  predicate InInt64(v: int) {
    LLONG_MIN <= v <= LLONG_MAX
  }

  function Concat<T>(parts: seq<seq<T>>): seq<T> {
    if parts == [] then [] else parts[0] + Concat(parts[1..])
  }

  lemma {:induction false} ConcatAppend<T>(a: seq<seq<T>>, b: seq<seq<T>>)
    ensures Concat(a + b) == Concat(a) + Concat(b)
  {
    if a == [] {
      assert a + b == b;
    } else {
      assert (a + b)[0] == a[0] && (a + b)[1..] == a[1..] + b;
      ConcatAppend(a[1..], b);
    }
  }

  lemma Associate<T>(a: seq<T>, b: seq<T>, c: seq<T>)
    ensures a + (b + c) == a + b + c
  {
  }

  /** Euclid's remainder, from any quotient that leaves one in range. */
  lemma ModIs(x: nat, m: nat, q: nat, r: nat)
    requires m > 0 && r < m && x == m * q + r
    ensures x % m == r
  {
    var d := q - x / m;
    assert m * q - m * (x / m) == m * d;
    MulAway(m, d);
  }

  lemma MulAway(m: int, d: int)
    requires m > 0
    ensures d >= 1 ==> m * d >= m
    ensures d <= -1 ==> m * d <= -m
  {
  }
}
