/** Decimal printing and parsing: string2ll (read.c), sdsll2str and sdsull2str (sds.c), countDigits (hiredis.c). */
module Decimal {
  import opened Bytes

  /** The decimal digits of n, most significant first, without leading zeroes. */
  function Dec(n: nat): (s: bytes)
    ensures |s| >= 1
  {
    if n < 10 then [ZERO + n] else Dec(n / 10) + [ZERO + n % 10]
  }

  /** The decimal form of a signed number. */
  function IntDec(v: int): (s: bytes)
    ensures |s| >= 1
  {
    if v < 0 then [MINUS] + Dec(-v) else Dec(v)
  }

  predicate IsDigit(b: byte) {
    ZERO <= b <= NINE
  }

  lemma {:induction false} DecDigits(n: nat)
    ensures forall i :: 0 <= i < |Dec(n)| ==> IsDigit(Dec(n)[i])
    ensures n > 0 ==> Dec(n)[0] != ZERO
  {
    if n >= 10 {
      DecDigits(n / 10);
    }
  }

  /** Appending a digit multiplies by ten. */
  lemma DecSnoc(n: nat, d: nat)
    requires n > 0 && d < 10
    ensures Dec(10 * n + d) == Dec(n) + [ZERO + d]
  {
    assert (10 * n + d) / 10 == n && (10 * n + d) % 10 == d;
  }

  /** The number a string of digits stands for, by place: each further digit weighs a tenth of the one before. */
  function Value(s: bytes): int {
    if s == [] then 0 else 10 * Value(s[..|s| - 1]) + s[|s| - 1] - 48
  }

  /** ASCII digits, at least one, the first not 0 unless it is alone. */
  predicate Numeral(s: bytes) {
    |s| >= 1 && (forall i :: 0 <= i < |s| ==> 48 <= s[i] <= 57) && (s[0] == 48 ==> |s| == 1)
  }

  /** A numeral, or one other than 0 with a minus sign in front. */
  predicate Denotes(s: bytes, v: int) {
    if |s| >= 1 && s[0] == 45 then Numeral(s[1..]) && s[1] != 48 && v == -Value(s[1..])
    else Numeral(s) && v == Value(s)
  }

  lemma {:induction false} DecNumeral(n: nat)
    ensures Numeral(Dec(n)) && Value(Dec(n)) == n
    ensures n > 0 ==> Dec(n)[0] != 48
  {
    if n < 10 {
      assert Dec(n)[..0] == [];
    } else {
      DecNumeral(n / 10);
      assert Dec(n)[..|Dec(n)| - 1] == Dec(n / 10);
    }
  }

  lemma {:induction false} NumeralDec(s: bytes)
    requires Numeral(s)
    ensures Value(s) >= 0 && Dec(Value(s)) == s
    ensures s[0] != 48 ==> Value(s) > 0
  {
    var n := |s| - 1;
    if n == 0 {
      assert s[..0] == [] && s == [s[0]];
    } else {
      NumeralDec(s[..n]);
      DecSnoc(Value(s[..n]), s[n] - 48);
      assert s == s[..n] + [s[n]];
    }
  }

  /** The decimal form of n is the one numeral whose value is n. */
  lemma DecExactly(n: nat, s: bytes)
    ensures s == Dec(n) <==> Numeral(s) && Value(s) == n
  {
    DecNumeral(n);
    if Numeral(s) {
      NumeralDec(s);
    }
  }

  /** The decimal form of v is the one string that denotes v. */
  lemma IntDecExactly(v: int, s: bytes)
    ensures s == IntDec(v) <==> Denotes(s, v)
  {
    hide Dec, Value;
    if v < 0 {
      DecNumeral(-v);
      assert IntDec(v)[1..] == Dec(-v);
    } else {
      DecNumeral(v);
    }
    if Denotes(s, v) {
      if s[0] == 45 {
        NumeralDec(s[1..]);
        assert s == [s[0]] + s[1..];
      } else {
        NumeralDec(s);
      }
    }
  }

  /** If the digits of n are continued by d in the digits of w, then w is at least 10 n + d. */
  lemma {:induction false} DecPrefix(n: nat, d: nat, w: nat)
    requires n > 0 && d < 10
    requires Dec(n) + [ZERO + d] <= Dec(w)
    ensures 10 * n + d <= w
  {
    if w >= 10 {
      var p, q := Dec(n), Dec(w / 10);
      if |p| + 1 == |Dec(w)| {
        assert p == Dec(w)[..|p|] == q;
        DecInjective(n, w / 10);
        assert ZERO + d == Dec(w)[|p|] == ZERO + w % 10;
      } else {
        assert p + [ZERO + d] == Dec(w)[..|p| + 1] == q[..|p| + 1];
        DecPrefix(n, d, w / 10);
      }
    }
  }

  lemma {:induction false} DecInjective(a: nat, b: nat)
    requires Dec(a) == Dec(b)
    ensures a == b
  {
    if a >= 10 && b >= 10 {
      assert Dec(a / 10) == Dec(a)[..|Dec(a)| - 1] == Dec(b / 10);
      assert ZERO + a % 10 == Dec(a)[|Dec(a)| - 1] == ZERO + b % 10;
      DecInjective(a / 10, b / 10);
    }
  }

  lemma IntDecInjective(a: int, b: int)
    requires IntDec(a) == IntDec(b)
    ensures a == b
  {
    DecDigits(if a < 0 then -a else a);
    DecDigits(if b < 0 then -b else b);
    assert a < 0 <==> b < 0;
    if a < 0 {
      assert Dec(-a) == IntDec(a)[1..] == Dec(-b);
      DecInjective(-a, -b);
    } else {
      DecInjective(a, b);
    }
  }

  /** Digits bound the value, and the other way round. */
  lemma {:induction false} DecLength(n: nat, k: nat, bound: nat)
    requires k >= 1 && bound == Pow10(k)
    ensures |Dec(n)| <= k <==> n < bound
    decreases n
  {
    if n >= 10 && k > 1 {
      DecLength(n / 10, k - 1, Pow10(k - 1));
    } else if n >= 10 {
      assert bound == 10 * Pow10(0);
    } else {
      Pow10AtLeast(k);
    }
  }

  function Pow10(k: nat): nat {
    if k == 0 then 1 else 10 * Pow10(k - 1)
  }

  /** The longest numbers the 21-byte buffers have to hold. */
  lemma Pow10Nineteen()
    ensures Pow10(19) == 10_000_000_000_000_000_000 && Pow10(20) == 100_000_000_000_000_000_000
  {
    assert Pow10(4) == 10_000;
    assert Pow10(8) == 100_000_000;
    assert Pow10(12) == 1_000_000_000_000;
    assert Pow10(16) == 10_000_000_000_000_000;
  }

  lemma {:induction false} Pow10AtLeast(k: nat)
    requires k >= 1
    ensures Pow10(k) >= 10
  {
    if k > 1 {
      Pow10AtLeast(k - 1);
    }
  }

  /** What string2ll accepts: exactly the canonical decimals of the 64-bit signed integers. */
  ghost function ParseInt(s: bytes): (r: Option<int>)
    ensures r.Some? ==> InInt64(r.value) && IntDec(r.value) == s
    ensures r.None? ==> forall v :: InInt64(v) ==> IntDec(v) != s
  {
    if exists v :: InInt64(v) && IntDec(v) == s then
      var v :| InInt64(v) && IntDec(v) == s;
      Some(v)
    else
      None
  }

  /** Printing and then parsing is the identity on every 64-bit integer. */
  lemma ParseIntOfIntDec(v: int)
    requires InInt64(v)
    ensures ParseInt(IntDec(v)) == Some(v)
  {
    var r := ParseInt(IntDec(v));
    assert r.Some?;
    IntDecInjective(r.value, v);
  }

  /** Parsing yields v exactly for a string that denotes v, if v fits 64 bits. */
  lemma ParseIntExactly(s: bytes, v: int)
    ensures ParseInt(s) == Some(v) <==> Denotes(s, v) && -0x8000_0000_0000_0000 <= v < 0x8000_0000_0000_0000
  {
    hide ParseInt, IntDec, Denotes;
    IntDecExactly(v, s);
    if s == IntDec(v) && InInt64(v) {
      ParseIntOfIntDec(v);
    }
  }

  lemma ParseZero(s: bytes)
    requires s == [ZERO]
    ensures ParseInt(s) == Some(0)
  {
    ParseIntOfIntDec(0);
  }

  /** string2ll: strict parsing with the unsigned 64-bit accumulator and its two overflow tests. */
  method String2ll(s: bytes) returns (r: Option<int>)
    ensures r == ParseInt(s)
    ensures forall v :: r == Some(v) <==> Denotes(s, v) && -0x8000_0000_0000_0000 <= v < 0x8000_0000_0000_0000
  {
    hide ParseInt, IntDec, Denotes;
    forall v {
      ParseIntExactly(s, v);
    }
    if |s| == 0 {
      return None;
    }
    if |s| == 1 && s[0] == ZERO {
      ParseZero(s);
      return Some(0);
    }
    var plen, negative := 0, false;
    if s[0] == MINUS {
      negative, plen := true, 1;
      if plen == |s| {
        NoDigitsNoInt(s, plen);
        return None;
      }
    }
    if s[plen] < ZERO + 1 || s[plen] > NINE {
      NoDigitsNoInt(s, plen);
      return None;
    }
    var start := plen;
    var v := s[plen] - ZERO;
    plen := plen + 1;
    assert s[start..plen] == Dec(v);
    hide Dec;
    while plen < |s| && ZERO <= s[plen] <= NINE
      invariant start < plen <= |s|
      invariant 0 < v <= ULLONG_MAX
      invariant s[start..plen] == Dec(v)
    {
      var d := s[plen] - ZERO;
      ghost var v0 := v;
      if v > ULLONG_MAX / 10 {
        TooLong(s, start, plen, v0, d);
        return None;
      }
      v := v * 10;
      if v > ULLONG_MAX - d {
        TooLong(s, start, plen, v0, d);
        return None;
      }
      NextDigit(s, start, plen, v0, d);
      v := v + d;
      plen := plen + 1;
    }
    if plen < |s| {
      NonDigitNoInt(s, plen);
      return None;
    }
    assert s[start..] == Dec(v);
    WholeInt(s, start, v);
    if negative {
      r := if v > -(LLONG_MIN + 1) + 1 then None else Some(-v);
    } else {
      r := if v > LLONG_MAX then None else Some(v);
    }
  }

  /** A string of digits, with or without a minus sign, is accepted when its value fits. */
  lemma WholeInt(s: bytes, start: nat, v: int)
    requires start < |s| && start == (if s[0] == MINUS then 1 else 0)
    requires v > 0 && s[start..] == Dec(v)
    ensures var w: int := if start == 1 then -v else v; ParseInt(s) == if InInt64(w) then Some(w) else None
  {
    var w: int := if start == 1 then -v else v;
    assert s == IntDec(w);
    if InInt64(w) {
      ParseIntOfIntDec(w);
    } else {
      OutOfRange(s, w);
    }
  }

  lemma OutOfRange(s: bytes, v: int)
    requires s == IntDec(v) && !InInt64(v)
    ensures ParseInt(s) == None
  {
    if ParseInt(s).Some? {
      IntDecInjective(ParseInt(s).value, v);
    }
  }

  lemma NonDigitNoInt(s: bytes, i: nat)
    requires i < |s| && !IsDigit(s[i]) && i >= 1
    ensures ParseInt(s) == None
  {
    if ParseInt(s).Some? {
      var v := ParseInt(s).value;
      DecDigits(if v < 0 then -v else v);
      assert false;
    }
  }

  /** No digit 1-9 where the first digit is due, and the string is not "0". */
  lemma NoDigitsNoInt(s: bytes, start: nat)
    requires |s| > 0 && s != [ZERO]
    requires start == if s[0] == MINUS then 1 else 0
    requires start < |s| ==> s[start] < ZERO + 1 || s[start] > NINE
    ensures ParseInt(s) == None
  {
    if ParseInt(s).Some? {
      var v := ParseInt(s).value;
      DecDigits(if v < 0 then -v else v);
      assert false;
    }
  }

  lemma NextDigit(s: bytes, start: nat, plen: nat, v: nat, d: nat)
    requires start < plen < |s| && v > 0 && d < 10
    requires s[start..plen] == Dec(v) && s[plen] == ZERO + d
    ensures s[start..plen + 1] == Dec(10 * v + d)
  {
    DecSnoc(v, d);
    assert s[start..plen + 1] == s[start..plen] + [s[plen]];
  }

  /** Once the accumulator would pass 2^64 - 1, no 64-bit integer prints as s. */
  lemma TooLong(s: bytes, start: nat, plen: nat, v: nat, d: nat)
    requires start < plen < |s| && start == (if s[0] == MINUS then 1 else 0)
    requires v > 0 && d < 10 && 10 * v + d > ULLONG_MAX
    requires s[start..plen] == Dec(v) && s[plen] == ZERO + d
    ensures ParseInt(s) == None
  {
    if ParseInt(s).Some? {
      var w := ParseInt(s).value;
      var m := if w < 0 then -w else w;
      DecDigits(m);
      assert s[start..] == Dec(m);
      assert s[start..][..plen + 1 - start] == Dec(v) + [ZERO + d];
      DecPrefix(v, d, m);
    }
  }

  /** countDigits: four digits per round. */
  method CountDigits(v0: nat) returns (result: nat)
    requires v0 <= ULLONG_MAX
    ensures result == |Dec(v0)|
  {
    var v := v0;
    result := 1;
    while true
      invariant result - 1 + |Dec(v)| == |Dec(v0)|
      decreases v
    {
      if v < 10 {
        return;
      }
      if v < 100 {
        return result + 1;
      }
      assert |Dec(v)| == 1 + |Dec(v / 10)|;
      if v < 1000 {
        assert |Dec(v / 10)| == 2;
        return result + 2;
      }
      if v < 10000 {
        assert |Dec(v / 10)| == 1 + |Dec(v / 10 / 10)| == 3;
        return result + 3;
      }
      DropFour(v);
      v := v / 10000;
      result := result + 4;
    }
  }

  lemma DropFour(v: nat)
    requires v >= 10000
    ensures |Dec(v)| == 4 + |Dec(v / 10000)|
  {
    var a, b, c := v / 10, v / 100, v / 1000;
    assert a / 10 == b && b / 10 == c && c / 10 == v / 10000;
    assert Dec(v) == Dec(a) + [ZERO + v % 10];
    assert Dec(a) == Dec(b) + [ZERO + a % 10];
    assert Dec(b) == Dec(c) + [ZERO + b % 10];
    assert Dec(c) == Dec(c / 10) + [ZERO + c % 10];
  }

  function Reversed<T>(s: seq<T>): (r: seq<T>)
    ensures |r| == |s|
    ensures forall i :: 0 <= i < |s| ==> r[i] == s[|s| - 1 - i]
  {
    seq(|s|, i requires 0 <= i < |s| => s[|s| - 1 - i])
  }

  /** The do-while loop shared by sdsll2str and sdsull2str: the digits, least significant first. */
  method EmitReversed(s: array<byte>, v0: nat) returns (p: nat)
    requires |Dec(v0)| <= s.Length
    modifies s
    ensures p == |Dec(v0)| && s[..p] == Reversed(Dec(v0))
    ensures Numeral(Reversed(s[..p])) && Value(Reversed(s[..p])) == v0
  {
    hide Value, Numeral;
    var v := v0;
    p := 0;
    s[p] := ZERO + v % 10;
    p, v := p + 1, v / 10;
    while v != 0
      invariant v > 0 ==> p + |Dec(v)| == |Dec(v0)| && p < s.Length
      invariant v == 0 ==> p == |Dec(v0)|
      invariant p <= |Dec(v0)|
      invariant forall i :: 0 <= i < p ==> s[i] == Dec(v0)[|Dec(v0)| - 1 - i]
      invariant v > 0 ==> Dec(v) == Dec(v0)[..|Dec(v)|]
    {
      ghost var before := Dec(v);
      assert v >= 10 ==> Dec(v / 10) == before[..|before| - 1];
      s[p] := ZERO + v % 10;
      assert s[p] == before[|before| - 1];
      p, v := p + 1, v / 10;
    }
    EmittedNumeral(s[..p], v0);
  }

  lemma EmittedNumeral(t: bytes, n: nat)
    requires t == Reversed(Dec(n))
    ensures Numeral(Reversed(t)) && Value(Reversed(t)) == n
  {
    hide Value, Numeral, Dec;
    DecNumeral(n);
    ReversedTwice(Dec(n));
  }

  /** The reversal loop shared by both: two pointers meeting in the middle. */
  method ReverseInPlace(s: array<byte>, l: nat)
    requires l <= s.Length
    modifies s
    ensures s[..l] == Reversed(old(s[..l]))
    ensures forall k :: l <= k < s.Length ==> s[k] == old(s[k])
  {
    var i, p := 0, l - 1;
    while i < p
      invariant 0 <= i <= l && p == l - 1 - i
      invariant i <= p + 1 || l == 0
      invariant forall k :: 0 <= k < i ==> s[k] == old(s[l - 1 - k]) && s[l - 1 - k] == old(s[k])
      invariant forall k :: i <= k <= p ==> s[k] == old(s[k])
      invariant forall k :: l <= k < s.Length ==> s[k] == old(s[k])
    {
      var aux := s[i];
      s[i] := s[p];
      s[p] := aux;
      i, p := i + 1, p - 1;
    }
  }

  /** sdsll2str: prints any 64-bit signed value into a 21-byte buffer, NUL terminated. */
  method SdsLl2Str(s: array<byte>, value: int) returns (l: nat)
    requires InInt64(value) && s.Length >= 21
    modifies s
    ensures l == |IntDec(value)| < 21 && s[..l] == IntDec(value) && s[l] == 0
    ensures Denotes(s[..l], value)
  {
    hide Dec, Reversed, Pow10, Denotes, Numeral, Value;
    IntDecExactly(value, IntDec(value));
    var v := if value < 0 then -value else value;
    Pow10Nineteen();
    DecLength(v, 19, 10_000_000_000_000_000_000);
    var p := EmitReversed(s, v);
    ghost var out := s[..p];
    ReversedSign(Dec(v));
    if value < 0 {
      s[p] := MINUS;
      p := p + 1;
      assert s[..p] == out + [MINUS];
    }
    l := p;
    ghost var text := s[..l];
    s[p] := 0;
    assert s[..l] == text == Reversed(IntDec(value));
    ReverseInPlace(s, l);
    ReversedTwice(IntDec(value));
  }

  lemma ReversedSign(d: bytes)
    ensures Reversed([MINUS] + d) == Reversed(d) + [MINUS]
  {
  }

  lemma ReversedTwice(d: bytes)
    ensures Reversed(Reversed(d)) == d
  {
  }

  /** sdsull2str: the unsigned variant. */
  method SdsUll2Str(s: array<byte>, v: nat) returns (l: nat)
    requires v <= ULLONG_MAX && s.Length >= 21
    modifies s
    ensures l == |Dec(v)| < 21 && s[..l] == Dec(v) && s[l] == 0
    ensures Numeral(s[..l]) && Value(s[..l]) == v
  {
    hide Dec, Reversed, Pow10, Numeral, Value;
    DecNumeral(v);
    Pow10Nineteen();
    DecLength(v, 20, 100_000_000_000_000_000_000);
    var p := EmitReversed(s, v);
    l := p;
    ghost var text := s[..l];
    s[p] := 0;
    assert s[..l] == text;
    ReverseInPlace(s, l);
    ReversedTwice(Dec(v));
  }
}
