/** Which bytes the reply grammar refuses, written down in numbers; all others are a reply or wait for more. */
module RespErrors {
  import opened Bytes
  import opened Decimal
  import opened RespGrammar

  /** What may stand on the line of an integer, of a bulk string and of an array. */
  predicate Admits(typ: byte, v: int) {
    if typ == 58 then -0x8000_0000_0000_0000 <= v < 0x8000_0000_0000_0000
    else if typ == 36 then -1 <= v < 0x8000_0000_0000_0000
    else -1 <= v < 0x8000_0000
  }

  /** The line after the type byte ends at i, with the first line break there is. */
  predicate LineEnds(s: bytes, i: nat) {
    && 1 <= i && i + 1 < |s| && s[i] == 13 && s[i + 1] == 10
    && forall j: nat :: 1 <= j < i ==> s[j] != 13 || s[j + 1] != 10
  }

  /** An unknown type byte, an array too deep, or a whole line without the number that is due. */
  ghost predicate BadHead(level: nat, s: bytes)
    requires s != []
  {
    || s[0] !in {43, 45, 58, 36, 42}
    || (s[0] == 42 && level == 8)
    || (s[0] in {58, 36, 42} && exists i: nat :: LineEnds(s, i) && NoNumber(s[0], s[1..i]))
  }

  ghost predicate NoNumber(typ: byte, l: bytes) {
    forall v :: Admits(typ, v) ==> !Denotes(l, v)
  }

  /** The header of an array of n elements, which begin at i + 2. */
  ghost predicate ArrayHead(level: nat, s: bytes, i: nat, n: nat) {
    && s != [] && s[0] == 42 && level != 8
    && LineEnds(s, i) && 0 < n < 0x8000_0000 && Denotes(s[1..i], n)
  }

  /** The bytes begin with a bad head, or with an array one of whose elements, after whole ones, does. */
  ghost predicate Malformed(level: nat, s: bytes)
    decreases |s|, 0, 0
  {
    && s != []
    && (BadHead(level, s)
        || exists i: nat, n: nat :: ArrayHead(level, s, i, n) && MalformedMany(level + 1, n, s[i + 2..]))
  }

  ghost predicate MalformedMany(level: nat, n: nat, s: bytes)
    decreases |s|, 1, n
  {
    && n > 0
    && (Malformed(level, s) || (Parse(level, s).Ok? && MalformedMany(level, n - 1, Parse(level, s).rest)))
  }

  lemma LineEndsIs(s: bytes, i: nat)
    requires s != []
    ensures LineEnds(s, i) <==> 1 <= i && FirstCrlf(s[1..], i - 1)
    ensures LineEnds(s, i) ==> Line(s[1..]) == Ok(s[1..i], s[i + 2..])
  {
    var t := s[1..];
    if LineEnds(s, i) {
      forall j: nat | j < i - 1 ensures !CrlfAt(t, j) {
        assert t[j] == s[j + 1];
      }
      assert CrlfAt(t, i - 1);
      LineIs(t, i - 1);
      assert t[..i - 1] == s[1..i] && t[i - 1 + 2..] == s[i + 2..];
    }
    if 1 <= i && FirstCrlf(t, i - 1) {
      forall j: nat | 1 <= j < i ensures s[j] != 13 || s[j + 1] != 10 {
        assert !CrlfAt(t, j - 1);
      }
    }
  }

  lemma LineAt(s: bytes) returns (i: nat)
    requires s != [] && Line(s[1..]).Ok?
    ensures LineEnds(s, i)
  {
    i := |Line(s[1..]).value| + 1;
    LineEndsIs(s, i);
  }

  lemma NumberIs(typ: byte, l: bytes)
    ensures NoNumber(typ, l) <==> ParseInt(l).None? || !Admits(typ, ParseInt(l).value)
  {
    hide Denotes, ParseInt;
    forall v {
      ParseIntExactly(l, v);
    }
  }

  lemma HeadIs(level: nat, s: bytes, i: nat)
    requires s != [] && LineEnds(s, i)
    ensures ReadItem(level, s[0], s[1..]).Fault? <==>
            || s[0] !in {43, 45, 58, 36, 42} || (s[0] == 42 && level == 8)
            || (s[0] in {58, 36, 42} && NoNumber(s[0], s[1..i]))
    ensures forall n: nat :: ArrayHead(level, s, i, n) <==> ReadItem(level, s[0], s[1..]) == Open(n, s[i + 2..])
    ensures ReadItem(level, s[0], s[1..]).Open? ==> ReadItem(level, s[0], s[1..]).rest == s[i + 2..]
  {
    hide Line, ParseInt, Denotes, NoNumber;
    LineEndsIs(s, i);
    NumberIs(s[0], s[1..i]);
    forall n: nat {
      ParseIntExactly(s[1..i], n);
    }
    hide LineEnds;
  }

  lemma OneLine(s: bytes, i: nat, j: nat)
    requires LineEnds(s, i) && LineEnds(s, j)
    ensures i == j
  {
  }

  lemma NoLine(level: nat, s: bytes)
    requires s != [] && Line(s[1..]).Need?
    ensures !ReadItem(level, s[0], s[1..]).Open?
    ensures ReadItem(level, s[0], s[1..]).Fault? <==> s[0] !in {43, 45, 58, 36, 42} || (s[0] == 42 && level == 8)
  {
    hide Line;
  }

  lemma HeadExactly(level: nat, s: bytes)
    requires s != []
    ensures var r := ReadItem(level, s[0], s[1..]);
            && (r.Fault? <==> BadHead(level, s))
            && forall i: nat, n: nat :: ArrayHead(level, s, i, n) ==> r == Open(n, s[i + 2..])
    ensures var r := ReadItem(level, s[0], s[1..]);
            r.Open? ==> exists i: nat :: ArrayHead(level, s, i, r.count) && r.rest == s[i + 2..]
  {
    hide Line, ReadItem, NoNumber, LineEnds;
    if Line(s[1..]).Ok? {
      var i := LineAt(s);
      HeadIs(level, s, i);
      forall j: nat | LineEnds(s, j) ensures j == i {
        OneLine(s, i, j);
      }
      var r := ReadItem(level, s[0], s[1..]);
      if r.Open? {
        assert r == Open(r.count, s[i + 2..]);
        assert ArrayHead(level, s, i, r.count);
      }
    } else {
      NoLine(level, s);
      forall j: nat | LineEnds(s, j) ensures false {
        LineEndsIs(s, j);
      }
    }
  }

  /** The grammar refuses a string exactly when it is malformed so. As what it accepts is known exactly too
      (ParseExact), so is what it waits with. */
  lemma {:induction false} BadExactly(level: nat, s: bytes)
    ensures Parse(level, s).Bad? <==> Malformed(level, s)
    decreases |s|, 0, 0
  {
    ParseStep(level, s);
    hide Parse, ParseMany, MalformedMany, ReadItem, BadHead, ArrayHead;
    if s != [] {
      HeadExactly(level, s);
      var r := ReadItem(level, s[0], s[1..]);
      if r.Open? {
        BadManyExactly(level + 1, r.count, r.rest);
      }
    }
  }

  lemma ParseStep(level: nat, s: bytes)
    ensures s == [] ==> !Parse(level, s).Bad?
    ensures s != [] ==>
              var r := ReadItem(level, s[0], s[1..]);
              Parse(level, s).Bad? <==> r.Fault? || (r.Open? && ParseMany(level + 1, r.count, r.rest).Bad?)
  {
    hide ReadItem, ParseMany;
  }

  lemma {:induction false} BadManyExactly(level: nat, n: nat, s: bytes)
    ensures ParseMany(level, n, s).Bad? <==> MalformedMany(level, n, s)
    decreases |s|, 1, n
  {
    ManyStep(level, n, s);
    hide Parse, ParseMany, Malformed, MalformedMany;
    if n > 0 {
      BadExactly(level, s);
      if Parse(level, s).Ok? {
        BadManyExactly(level, n - 1, Parse(level, s).rest);
      }
    }
  }

  lemma ManyStep(level: nat, n: nat, s: bytes)
    ensures n == 0 ==> !ParseMany(level, n, s).Bad? && !MalformedMany(level, n, s)
    ensures n > 0 ==>
              var r := Parse(level, s);
              && (ParseMany(level, n, s).Bad? <==> r.Bad? || (r.Ok? && ParseMany(level, n - 1, r.rest).Bad?))
              && (MalformedMany(level, n, s) <==>
                  Malformed(level, s) || (r.Ok? && MalformedMany(level, n - 1, r.rest)))
  {
    hide Parse, Malformed;
  }
}
