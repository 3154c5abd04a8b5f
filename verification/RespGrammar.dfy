/** The reply grammar of the Redis serialization protocol (RESP2), as hiredis' read.c reads it. */
module RespGrammar {
  import opened Bytes
  import opened Decimal

  const PLUS: byte := 43
  const COLON: byte := 58
  const DOLLAR: byte := 36
  const STAR: byte := 42

  /** An array header is refused at this level: rstack has nine slots, 0 to 8. */
  const MAX_LEVEL := 8

  datatype Reply =
    | Status(text: bytes)
    | Error(text: bytes)
    | Integer(v: int)
    | Str(data: bytes)
    | Nil
    | Array(elems: seq<Reply>)

  datatype Err = BadType(b: byte) | BadInteger | BadBulkLength | BulkOutOfRange
               | TooDeep | BadMultiLength | MultiOutOfRange

  /** Result of parsing a prefix: a value and what follows it, "need more bytes", or a protocol error. */
  datatype Res<+T> = Ok(value: T, rest: bytes) | Need | Bad(error: Err)

  // ----- lines -----

  predicate CrlfAt(s: bytes, i: nat) {
    i + 1 < |s| && s[i] == CR && s[i + 1] == LF
  }

  predicate NoCrlf(s: bytes) {
    forall i: nat :: i < |s| ==> !CrlfAt(s, i)
  }

  predicate FirstCrlf(s: bytes, i: nat) {
    CrlfAt(s, i) && forall j: nat :: j < i ==> !CrlfAt(s, j)
  }

  /** The text before the first CRLF and what follows that CRLF. */
  ghost function Line(s: bytes): (r: Res<bytes>)
    ensures r.Need? ==> NoCrlf(s)
    ensures r.Ok? ==> FirstCrlf(s, |r.value|) && s == r.value + CRLF + r.rest
    ensures !r.Bad?
  {
    if exists i: nat :: FirstCrlf(s, i) then
      var i: nat :| FirstCrlf(s, i);
      Ok(s[..i], s[i + 2..])
    else
      NoFirstNoCrlf(s, |s|);
      Need
  }

  lemma {:induction false} NoFirstNoCrlf(s: bytes, n: nat)
    requires n <= |s| && !exists i: nat :: FirstCrlf(s, i)
    ensures forall i: nat :: i < n ==> !CrlfAt(s, i)
  {
    if n > 0 {
      NoFirstNoCrlf(s, n - 1);
      assert !FirstCrlf(s, n - 1);
    }
  }

  lemma LineIs(s: bytes, i: nat)
    requires FirstCrlf(s, i)
    ensures Line(s) == Ok(s[..i], s[i + 2..])
  {
    var r := Line(s);
    assert r.Ok?;
    assert |r.value| == i;
    assert r.value == s[..i] && r.rest == s[i + 2..];
  }

  lemma LineOf(l: bytes, rest: bytes)
    requires NoCrlf(l)
    ensures Line(l + CRLF + rest) == Ok(l, rest)
  {
    var s := l + CRLF + rest;
    forall j: nat | j < |l| ensures !CrlfAt(s, j) {
      assert !CrlfAt(l, j);
    }
    assert CrlfAt(s, |l|);
    LineIs(s, |l|);
    assert s[..|l|] == l && s[|l| + 2..] == rest;
  }

  lemma LineExtend(s: bytes, t: bytes)
    requires Line(s).Ok?
    ensures Line(s + t) == Ok(Line(s).value, Line(s).rest + t)
  {
    var r := Line(s);
    forall j: nat | j < |r.value| ensures !CrlfAt(s + t, j) {
      assert !CrlfAt(s, j);
    }
    assert CrlfAt(s + t, |r.value|);
    LineIs(s + t, |r.value|);
    assert (s + t)[..|r.value|] == r.value && (s + t)[|r.value| + 2..] == r.rest + t;
  }

  // ----- one item -----

  /** One item after its type byte: a complete reply, the header of a non-empty array, or neither. */
  datatype Item = Leaf(reply: Reply, rest: bytes) | Open(count: nat, rest: bytes) | Short | Fault(error: Err)

  ghost function ReadLineItem(typ: byte, s: bytes): (r: Item)
    ensures r.Leaf? ==> |r.rest| < |s|
  {
    match Line(s)
    case Ok(l, rest) =>
      if typ == COLON then
        (match ParseInt(l)
         case Some(v) => Leaf(Integer(v), rest)
         case None => Fault(BadInteger))
      else if typ == PLUS then Leaf(Status(l), rest)
      else Leaf(Error(l), rest)
    case _ => Short
  }

  ghost function ReadBulk(s: bytes): (r: Item)
    ensures r.Leaf? ==> |r.rest| < |s|
  {
    match Line(s)
    case Ok(l, rest) =>
      (match ParseInt(l)
       case None => Fault(BadBulkLength)
       case Some(n) =>
         if n < -1 then Fault(BulkOutOfRange)
         else if n == -1 then Leaf(Nil, rest)
         else if n + 2 <= |rest| then Leaf(Str(rest[..n]), rest[n + 2..])
         else Short)
    case _ => Short
  }

  ghost function ReadMulti(level: nat, s: bytes): (r: Item)
    ensures r.Leaf? || r.Open? ==> |r.rest| < |s|
    ensures r.Open? ==> 0 < r.count <= INT_MAX && level != MAX_LEVEL
  {
    if level == MAX_LEVEL then Fault(TooDeep)
    else match Line(s)
      case Ok(l, rest) =>
        (match ParseInt(l)
         case None => Fault(BadMultiLength)
         case Some(n) =>
           if n < -1 || n > INT_MAX then Fault(MultiOutOfRange)
           else if n == -1 then Leaf(Nil, rest)
           else if n == 0 then Leaf(Array([]), rest)
           else Open(n, rest))
      case _ => Short
  }

  ghost function ReadItem(level: nat, typ: byte, s: bytes): (r: Item)
    ensures r.Leaf? || r.Open? ==> |r.rest| < |s|
    ensures r.Open? ==> r.count > 0 && level != MAX_LEVEL
  {
    if typ == MINUS || typ == PLUS || typ == COLON then ReadLineItem(typ, s)
    else if typ == DOLLAR then ReadBulk(s)
    else if typ == STAR then ReadMulti(level, s)
    else Fault(BadType(typ))
  }

  function Extend(i: Item, t: bytes): Item {
    match i
    case Leaf(r, rest) => Leaf(r, rest + t)
    case Open(n, rest) => Open(n, rest + t)
    case _ => i
  }

  lemma ReadBulkExtend(s: bytes, t: bytes)
    requires !ReadBulk(s).Short?
    ensures ReadBulk(s + t) == Extend(ReadBulk(s), t)
  {
    LineExtend(s, t);
    var Ok(l, rest) := Line(s);
    if ReadBulk(s).Leaf? && ReadBulk(s).reply.Str? {
      var n := ParseInt(l).value;
      assert (rest + t)[..n] == rest[..n] && (rest + t)[n + 2..] == rest[n + 2..] + t;
    }
  }

  lemma ReadItemExtend(level: nat, typ: byte, s: bytes, t: bytes)
    requires !ReadItem(level, typ, s).Short?
    ensures ReadItem(level, typ, s + t) == Extend(ReadItem(level, typ, s), t)
  {
    if typ == DOLLAR {
      ReadBulkExtend(s, t);
    } else if Line(s).Ok? {
      LineExtend(s, t);
    }
  }

  // ----- the recursive grammar -----

  /** A whole reply at a nesting level. */
  ghost function Parse(level: nat, s: bytes): (r: Res<Reply>)
    ensures r.Ok? ==> |r.rest| < |s|
    decreases |s|, 0, 0
  {
    if s == [] then Need
    else match ReadItem(level, s[0], s[1..])
      case Leaf(r, rest) => Ok(r, rest)
      case Open(n, rest) =>
        (match ParseMany(level + 1, n, rest)
         case Ok(rs, rest') => Ok(Array(rs), rest')
         case Need => Need
         case Bad(e) => Bad(e))
      case Short => Need
      case Fault(e) => Bad(e)
  }

  /** Exactly n replies in a row. */
  ghost function ParseMany(level: nat, n: nat, s: bytes): (r: Res<seq<Reply>>)
    ensures r.Ok? ==> |r.rest| <= |s| && |r.value| == n
    decreases |s|, 1, n
  {
    if n == 0 then Ok([], s)
    else match Parse(level, s)
      case Ok(r, rest) =>
        (match ParseMany(level, n - 1, rest)
         case Ok(rs, rest') => Ok([r] + rs, rest')
         case Need => Need
         case Bad(e) => Bad(e))
      case Need => Need
      case Bad(e) => Bad(e)
  }

  function Grow<T>(r: Res<T>, t: bytes): Res<T> {
    if r.Ok? then Ok(r.value, r.rest + t) else r
  }

  /** More input never changes a finished reply or an error. */
  lemma {:induction false} ParseExtend(level: nat, s: bytes, t: bytes)
    requires !Parse(level, s).Need?
    ensures Parse(level, s + t) == Grow(Parse(level, s), t)
    decreases |s|, 0, 0
  {
    var i := ReadItem(level, s[0], s[1..]);
    assert (s + t)[0] == s[0] && (s + t)[1..] == s[1..] + t;
    ReadItemExtend(level, s[0], s[1..], t);
    if i.Open? {
      ParseManyExtend(level + 1, i.count, i.rest, t);
    }
  }

  lemma {:induction false} ParseManyExtend(level: nat, n: nat, s: bytes, t: bytes)
    requires !ParseMany(level, n, s).Need?
    ensures ParseMany(level, n, s + t) == Grow(ParseMany(level, n, s), t)
    decreases |s|, 1, n
  {
    hide ReadItem;
    if n > 0 {
      ParseExtend(level, s, t);
      var r := Parse(level, s);
      if r.Ok? {
        ParseManyExtend(level, n - 1, r.rest, t);
      }
    }
  }

  // ----- which bytes spell which reply -----

  /** The bytes c are a spelling of reply r inside an array nest of the given level: the reader
      leaves the two bytes after a bulk body unchecked, and reads two spellings of nil. */
  ghost predicate Spells(c: bytes, r: Reply, level: nat)
    decreases r, 0, 0
  {
    match r
    case Status(l) => NoCrlf(l) && c == [PLUS] + l + CRLF
    case Error(l) => NoCrlf(l) && c == [MINUS] + l + CRLF
    case Integer(v) => InInt64(v) && c == [COLON] + IntDec(v) + CRLF
    case Str(d) => |d| <= LLONG_MAX && |c| >= 2
                   && c[..|c| - 2] == [DOLLAR] + Dec(|d|) + CRLF + d
    case Nil => c == [DOLLAR] + IntDec(-1) + CRLF
                || (level != MAX_LEVEL && c == [STAR] + IntDec(-1) + CRLF)
    case Array(rs) =>
      level != MAX_LEVEL && |rs| <= INT_MAX
      && var head := [STAR] + Dec(|rs|) + CRLF;
         head <= c && SpellsMany(c[|head|..], rs, level + 1)
  }

  ghost predicate SpellsMany(c: bytes, rs: seq<Reply>, level: nat)
    decreases rs, 1, |rs|
  {
    if rs == [] then c == []
    else exists k: nat :: SplitAt(c, rs, level, k)
  }

  ghost predicate SplitAt(c: bytes, rs: seq<Reply>, level: nat, k: nat)
    requires rs != []
    decreases rs, 0, |rs|
  {
    k <= |c| && Spells(c[..k], rs[0], level) && SpellsMany(c[k..], rs[1..], level)
  }

  /** The spellings in numbers: n is the decimal of an integer's value, a string's length or an array's count. */
  lemma SpellsInNumbers(c: bytes, r: Reply, level: nat, n: bytes)
    requires match r
             case Integer(v) => Denotes(n, v)
             case Str(d) => Denotes(n, |d|)
             case Array(rs) => Denotes(n, |rs|)
             case _ => true
    ensures Spells(c, r, level) <==>
            match r
            case Status(l) => Unbroken(l) && c == [43] + l + [13, 10]
            case Error(l) => Unbroken(l) && c == [45] + l + [13, 10]
            case Integer(v) => -0x8000_0000_0000_0000 <= v < 0x8000_0000_0000_0000 && c == [58] + n + [13, 10]
            case Str(d) => |d| < 0x8000_0000_0000_0000 && |c| >= 2 && c[..|c| - 2] == [36] + n + [13, 10] + d
            case Nil => c == [36, 45, 49, 13, 10] || (level != 8 && c == [42, 45, 49, 13, 10])
            case Array(rs) => level != 8 && |rs| < 0x8000_0000 && (var head := [42] + n + [13, 10];
                                head <= c && SpellsMany(c[|head|..], rs, level + 1))
  {
    hide SpellsMany, Denotes;
    match r
    case Status(l) => UnbrokenIs(l);
    case Error(l) => UnbrokenIs(l);
    case Integer(v) => IntDecExactly(v, n);
    case Str(d) => IntDecExactly(|d|, n);
    case Nil => MinusOne();
    case Array(rs) => IntDecExactly(|rs|, n);
  }

  predicate Unbroken(l: bytes) {
    forall i :: 0 <= i < |l| - 1 ==> l[i] != 13 || l[i + 1] != 10
  }

  lemma UnbrokenIs(l: bytes)
    ensures Unbroken(l) <==> NoCrlf(l)
  {
    if NoCrlf(l) {
      forall i: int | 0 <= i < |l| - 1 ensures l[i] != 13 || l[i + 1] != 10 {
        assert !CrlfAt(l, i);
      }
    }
  }

  lemma MinusOne()
    ensures IntDec(-1) == [45, 49]
  {
  }

  lemma DecNoCrlf(v: int)
    ensures NoCrlf(IntDec(v))
  {
    DecDigits(if v < 0 then -v else v);
  }

  lemma HeadLine(t: byte, v: int, rest: bytes)
    ensures var s := [t] + IntDec(v) + CRLF + rest;
            s != [] && s[0] == t && Line(s[1..]) == Ok(IntDec(v), rest)
            && (InInt64(v) ==> ParseInt(IntDec(v)) == Some(v))
  {
    DecNoCrlf(v);
    LineOf(IntDec(v), rest);
    assert ([t] + IntDec(v) + CRLF + rest)[1..] == IntDec(v) + CRLF + rest;
    if InInt64(v) {
      ParseIntOfIntDec(v);
    }
  }

  /** A line-shaped item reads back. */
  lemma ReadLineSpelling(level: nat, typ: byte, l: bytes, rest: bytes)
    requires NoCrlf(l) && (typ == PLUS || typ == MINUS)
    ensures Parse(level, [typ] + l + CRLF + rest) == Ok(if typ == PLUS then Status(l) else Error(l), rest)
  {
    LineOf(l, rest);
    assert ([typ] + l + CRLF + rest)[1..] == l + CRLF + rest;
  }

  lemma ReadBulkSpelling(level: nat, d: bytes, tail: bytes, rest: bytes)
    requires |d| <= LLONG_MAX && |tail| == 2
    ensures Parse(level, [DOLLAR] + Dec(|d|) + CRLF + (d + tail + rest)) == Ok(Str(d), rest)
  {
    var body := d + tail + rest;
    HeadLine(DOLLAR, |d|, body);
    assert body[..|d|] == d && body[|d| + 2..] == rest;
  }

  lemma ReadNumberSpelling(level: nat, typ: byte, v: int, rest: bytes)
    requires InInt64(v) && (typ == COLON || v == -1)
             && (typ == COLON || typ == DOLLAR || (typ == STAR && level != MAX_LEVEL))
    ensures Parse(level, [typ] + IntDec(v) + CRLF + rest) == Ok(if typ == COLON then Integer(v) else Nil, rest)
  {
    HeadLine(typ, v, rest);
  }

  /** Every spelling is read back as its reply, and exactly its bytes are consumed. */
  lemma {:induction false} ParseSpelling(level: nat, c: bytes, r: Reply, rest: bytes)
    requires level <= MAX_LEVEL && Spells(c, r, level)
    ensures Parse(level, c + rest) == Ok(r, rest)
    decreases r, 0, 0
  {
    hide Parse, ParseMany, ReadItem, ParseInt, SpellsMany;
    match r
    case Status(l) =>
      ReadLineSpelling(level, PLUS, l, rest);
    case Error(l) =>
      ReadLineSpelling(level, MINUS, l, rest);
    case Integer(v) =>
      ReadNumberSpelling(level, COLON, v, rest);
    case Str(d) =>
      var tail := c[|c| - 2..];
      ReadBulkSpelling(level, d, tail, rest);
      assert c + rest == c[..|c| - 2] + tail + rest == [DOLLAR] + Dec(|d|) + CRLF + (d + tail + rest);
    case Nil =>
      ReadNumberSpelling(level, c[0], -1, rest);
    case Array(rs) =>
      var head := [STAR] + Dec(|rs|) + CRLF;
      var body := c[|head|..];
      assert c + rest == head + (body + rest);
      HeadLine(STAR, |rs|, body + rest);
      ParseManySpelling(level + 1, body, rs, rest);
      ParseArray(level, c + rest, |rs|, body + rest);
  }

  /** An array header with its elements. */
  lemma ParseArray(level: nat, s: bytes, n: nat, body: bytes)
    requires level < MAX_LEVEL && n <= INT_MAX && s != [] && s[0] == STAR
    requires Line(s[1..]) == Ok(Dec(n), body) && ParseInt(Dec(n)) == Some(n)
    requires ParseMany(level + 1, n, body).Ok?
    ensures Parse(level, s) == Ok(Array(ParseMany(level + 1, n, body).value), ParseMany(level + 1, n, body).rest)
  {
    ReadArrayHeader(level, s[1..], n, body);
    hide ReadItem;
  }

  lemma ReadArrayHeader(level: nat, s: bytes, n: nat, body: bytes)
    requires level < MAX_LEVEL && n <= INT_MAX && Line(s) == Ok(Dec(n), body) && ParseInt(Dec(n)) == Some(n)
    ensures ReadItem(level, STAR, s) == if n == 0 then Leaf(Array([]), body) else Open(n, body)
  {
  }

  lemma {:induction false} ParseManySpelling(level: nat, c: bytes, rs: seq<Reply>, rest: bytes)
    requires level <= MAX_LEVEL && SpellsMany(c, rs, level)
    ensures ParseMany(level, |rs|, c + rest) == Ok(rs, rest)
    decreases rs, 1, |rs|
  {
    hide ReadItem, Spells, Parse;
    if rs == [] {
      assert c + rest == rest;
    } else {
      var k: nat :| SplitAt(c, rs, level, k);
      assert c + rest == c[..k] + (c[k..] + rest);
      ParseSpelling(level, c[..k], rs[0], c[k..] + rest);
      ParseManySpelling(level, c[k..], rs[1..], rest);
      assert [rs[0]] + rs[1..] == rs;
    }
  }

  /** Whatever the grammar accepts is a spelling of the reply followed by the rest. */
  lemma {:induction false} SpellingOfParse(level: nat, s: bytes)
    requires level <= MAX_LEVEL && Parse(level, s).Ok?
    ensures var r := Parse(level, s);
            |r.rest| <= |s| && s == s[..|s| - |r.rest|] + r.rest
            && Spells(s[..|s| - |r.rest|], r.value, level)
    decreases |s|, 0, 0
  {
    hide ReadItem, Spells, SpellsMany, ParseMany;
    var r := Parse(level, s);
    var i := ReadItem(level, s[0], s[1..]);
    if i.Leaf? {
      SpellingOfLeaf(level, s);
    } else {
      SpellingOfParseMany(level + 1, i.count, i.rest);
      OpenHeader(level, s);
      ArraySpells(s, i.rest, r.rest, r.value.elems, level);
    }
  }

  lemma ArraySpells(s: bytes, body: bytes, rest: bytes, rs: seq<Reply>, level: nat)
    requires level != MAX_LEVEL && |rs| <= INT_MAX && |rest| <= |body|
    requires s == [STAR] + Dec(|rs|) + CRLF + body && body == body[..|body| - |rest|] + rest
    requires SpellsMany(body[..|body| - |rest|], rs, level + 1)
    ensures s == s[..|s| - |rest|] + rest && Spells(s[..|s| - |rest|], Array(rs), level)
  {
    hide SpellsMany;
    var c, head := s[..|s| - |rest|], [STAR] + Dec(|rs|) + CRLF;
    assert c == head + body[..|body| - |rest|];
    assert c[|head|..] == body[..|body| - |rest|];
  }

  lemma OpenHeader(level: nat, s: bytes)
    requires s != [] && ReadItem(level, s[0], s[1..]).Open?
    ensures var i := ReadItem(level, s[0], s[1..]);
            i.count <= INT_MAX && s == [STAR] + Dec(i.count) + CRLF + i.rest
  {
    OpenIsMulti(level, s[0], s[1..]);
    hide ReadItem, ReadMulti, Dec;
    MultiHeader(level, s[1..]);
    var i := ReadMulti(level, s[1..]);
    assert s == [STAR] + s[1..];
    LeadByte(STAR, Dec(i.count), CRLF, i.rest);
  }

  lemma OpenIsMulti(level: nat, typ: byte, s: bytes)
    requires ReadItem(level, typ, s).Open?
    ensures typ == STAR && ReadItem(level, typ, s) == ReadMulti(level, s)
  {
    hide Line, ParseInt, ReadMulti;
  }

  lemma LeadByte(b: byte, x: bytes, y: bytes, z: bytes)
    ensures [b] + (x + y + z) == [b] + x + y + z
  {
  }

  lemma MultiHeader(level: nat, s: bytes)
    requires ReadMulti(level, s).Open?
    ensures var i := ReadMulti(level, s); i.count <= INT_MAX && s == Dec(i.count) + CRLF + i.rest
  {
    hide Line, Dec;
  }

  lemma SpellingOfLeaf(level: nat, s: bytes)
    requires level <= MAX_LEVEL && s != [] && ReadItem(level, s[0], s[1..]).Leaf?
    ensures var i := ReadItem(level, s[0], s[1..]);
            |i.rest| <= |s| && s == s[..|s| - |i.rest|] + i.rest
            && Spells(s[..|s| - |i.rest|], i.reply, level)
  {
    hide ReadItem, Spells, Line, Dec;
    var i := ReadItem(level, s[0], s[1..]);
    if i.reply.Str? {
      SpellingOfBulk(level, s);
    } else {
      LeafIsLine(level, s);
      var line := Line(s[1..]);
      var c := s[..|s| - |i.rest|];
      assert s == [s[0]] + (line.value + CRLF + line.rest);
      assert c == [s[0]] + line.value + CRLF;
      LineHasNoCrlf(s[1..]);
      SpellingOfLine(level, s, c);
    }
  }

  lemma LeafIsLine(level: nat, s: bytes)
    requires s != []
    requires var i := ReadItem(level, s[0], s[1..]); i.Leaf? && !i.reply.Str?
    ensures Line(s[1..]).Ok? && ReadItem(level, s[0], s[1..]).rest == Line(s[1..]).rest
  {
  }

  lemma SpellingOfLine(level: nat, s: bytes, c: bytes)
    requires level <= MAX_LEVEL && s != [] && Line(s[1..]).Ok?
    requires NoCrlf(Line(s[1..]).value) && c == [s[0]] + Line(s[1..]).value + CRLF
    requires var i := ReadItem(level, s[0], s[1..]); i.Leaf? && !i.reply.Str?
    ensures Spells(c, ReadItem(level, s[0], s[1..]).reply, level)
  {
    var r := ReadItem(level, s[0], s[1..]).reply;
    assert r.Array? ==> c == [STAR] + Dec(0) + CRLF && c[|c|..] == [];
  }

  lemma SpellingOfBulk(level: nat, s: bytes)
    requires s != [] && ReadItem(level, s[0], s[1..]).Leaf? && ReadItem(level, s[0], s[1..]).reply.Str?
    ensures var i := ReadItem(level, s[0], s[1..]);
            |i.rest| <= |s| && s == s[..|s| - |i.rest|] + i.rest
            && Spells(s[..|s| - |i.rest|], i.reply, level)
  {
    var tail := BulkParts(s);
    hide ReadItem;
    var i := ReadItem(level, s[0], s[1..]);
    CutBulk(s, [DOLLAR] + Dec(|i.reply.data|) + CRLF, i.reply.data, tail, i.rest);
  }

  lemma BulkParts(s: bytes) returns (tail: bytes)
    requires s != [] && s[0] == DOLLAR && ReadBulk(s[1..]).Leaf? && ReadBulk(s[1..]).reply.Str?
    ensures var i := ReadBulk(s[1..]);
            |tail| == 2 && |i.reply.data| <= LLONG_MAX
            && s == [DOLLAR] + Dec(|i.reply.data|) + CRLF + (i.reply.data + tail + i.rest)
  {
    var line := Line(s[1..]);
    var n := ParseInt(line.value).value;
    tail := line.rest[n..n + 2];
    assert s == [DOLLAR] + (line.value + CRLF + line.rest);
    assert line.rest == line.rest[..n] + tail + line.rest[n + 2..];
  }

  lemma CutBulk(s: bytes, head: bytes, d: bytes, tail: bytes, rest: bytes)
    requires |tail| == 2 && s == head + (d + tail + rest)
    ensures var c := s[..|s| - |rest|]; s == c + rest && c[..|c| - 2] == head + d
  {
  }

  lemma LineHasNoCrlf(s: bytes)
    requires Line(s).Ok?
    ensures NoCrlf(Line(s).value)
  {
    var l := Line(s).value;
    forall j: nat | j < |l| ensures !CrlfAt(l, j) {
      assert !CrlfAt(s, j);
    }
  }

  lemma {:induction false} SpellingOfParseMany(level: nat, n: nat, s: bytes)
    requires level <= MAX_LEVEL && ParseMany(level, n, s).Ok?
    ensures var r := ParseMany(level, n, s);
            |r.rest| <= |s| && s == s[..|s| - |r.rest|] + r.rest
            && SpellsMany(s[..|s| - |r.rest|], r.value, level)
    decreases |s|, 1, n
  {
    hide ReadItem, SpellsMany, Spells, Parse;
    var r := ParseMany(level, n, s);
    if n == 0 {
      EmptySpells(level);
    } else {
      var p := Parse(level, s);
      SpellingOfParse(level, s);
      SpellingOfParseMany(level, n - 1, p.rest);
      var c, k := s[..|s| - |r.rest|], |s| - |p.rest|;
      assert c[..k] == s[..k] && c[k..] == p.rest[..|p.rest| - |r.rest|];
      JoinSpells(c, k, p.value, ParseMany(level, n - 1, p.rest).value, level);
    }
  }

  lemma EmptySpells(level: nat)
    ensures SpellsMany([], [], level)
  {
  }

  lemma JoinSpells(c: bytes, k: nat, r: Reply, rs: seq<Reply>, level: nat)
    requires k <= |c| && Spells(c[..k], r, level) && SpellsMany(c[k..], rs, level)
    ensures SpellsMany(c, [r] + rs, level)
  {
    assert ([r] + rs)[1..] == rs;
    assert SplitAt(c, [r] + rs, level, k);
  }

  /** The reader's language: r is read off the front of s, leaving rest, exactly when the bytes
      in front of rest spell r. */
  lemma ParseExact(level: nat, s: bytes, r: Reply, rest: bytes)
    requires level <= MAX_LEVEL
    ensures Parse(level, s) == Ok(r, rest) <==> exists c :: s == c + rest && Spells(c, r, level)
  {
    if Parse(level, s) == Ok(r, rest) {
      SpellingOfParse(level, s);
      var c := s[..|s| - |rest|];
      assert s == c + rest && Spells(c, r, level);
    }
    if c :| s == c + rest && Spells(c, r, level) {
      ParseSpelling(level, c, r, rest);
    }
  }

  // ----- the canonical encoding -----

  function Bulk(d: bytes): bytes {
    [DOLLAR] + Dec(|d|) + CRLF + d + CRLF
  }

  function Encode(r: Reply): bytes
    decreases r, 0, 0
  {
    match r
    case Status(l) => [PLUS] + l + CRLF
    case Error(l) => [MINUS] + l + CRLF
    case Integer(v) => [COLON] + IntDec(v) + CRLF
    case Str(d) => Bulk(d)
    case Nil => [DOLLAR] + IntDec(-1) + CRLF
    case Array(rs) => [STAR] + Dec(|rs|) + CRLF + EncodeMany(rs)
  }

  function EncodeMany(rs: seq<Reply>): bytes
    decreases rs, 1, |rs|
  {
    if rs == [] then [] else Encode(rs[0]) + EncodeMany(rs[1..])
  }

  /** Representable below a nesting level: arrays sit at levels 0 to 7, texts are one line, numbers fit. */
  predicate Representable(r: Reply, level: nat) {
    match r
    case Status(l) => NoCrlf(l)
    case Error(l) => NoCrlf(l)
    case Integer(v) => InInt64(v)
    case Str(d) => |d| <= LLONG_MAX
    case Nil => true
    case Array(rs) =>
      level < MAX_LEVEL && |rs| <= INT_MAX && forall i :: 0 <= i < |rs| ==> Representable(rs[i], level + 1)
  }

  lemma {:induction false} EncodeSpells(r: Reply, level: nat)
    requires level <= MAX_LEVEL
    ensures Representable(r, level) ==> Spells(Encode(r), r, level)
    decreases r, 0, 0
  {
    match r
    case Str(d) =>
      assert Encode(r)[..|Encode(r)| - 2] == [DOLLAR] + Dec(|d|) + CRLF + d;
    case Array(rs) =>
      if Representable(r, level) {
        var head := [STAR] + Dec(|rs|) + CRLF;
        assert Encode(r)[|head|..] == EncodeMany(rs);
        EncodeManySpells(rs, level + 1);
      }
    case _ =>
  }

  lemma {:induction false} EncodeManySpells(rs: seq<Reply>, level: nat)
    requires level <= MAX_LEVEL && forall i :: 0 <= i < |rs| ==> Representable(rs[i], level)
    ensures SpellsMany(EncodeMany(rs), rs, level)
    decreases rs, 1, |rs|
  {
    if rs != [] {
      EncodeSpells(rs[0], level);
      EncodeManySpells(rs[1..], level);
      var c, k := EncodeMany(rs), |Encode(rs[0])|;
      assert c[..k] == Encode(rs[0]) && c[k..] == EncodeMany(rs[1..]);
      assert SplitAt(c, rs, level, k);
    }
  }

  /** Reading an encoding gives the reply back and consumes exactly its bytes, and the readable
      replies are exactly the representable ones. */
  lemma RoundTrip(r: Reply, rest: bytes)
    ensures Representable(r, 0) ==> Parse(0, Encode(r) + rest) == Ok(r, rest)
    ensures Representable(r, 0) <==> exists s :: Parse(0, s) == Ok(r, [])
  {
    hide Parse, Spells, Representable, Encode;
    if Representable(r, 0) {
      EncodeSpells(r, 0);
      ParseSpelling(0, Encode(r), r, rest);
      ParseSpelling(0, Encode(r), r, []);
      assert Parse(0, Encode(r) + []) == Ok(r, []);
    }
    if s :| Parse(0, s) == Ok(r, []) {
      SpellingOfParse(0, s);
      assert s[..|s| - 0] == s;
      SpelledIsRepresentable(s, r, 0);
    }
  }

  lemma {:induction false} SpelledIsRepresentable(c: bytes, r: Reply, level: nat)
    requires level <= MAX_LEVEL && Spells(c, r, level)
    ensures Representable(r, level)
    decreases r, 0, 0
  {
    if r.Array? {
      var head := [STAR] + Dec(|r.elems|) + CRLF;
      ManySpelledAreRepresentable(c[|head|..], r.elems, level + 1);
    }
  }

  lemma {:induction false} ManySpelledAreRepresentable(c: bytes, rs: seq<Reply>, level: nat)
    requires level <= MAX_LEVEL && SpellsMany(c, rs, level)
    ensures forall i :: 0 <= i < |rs| ==> Representable(rs[i], level)
    decreases rs, 1, |rs|
  {
    if rs != [] {
      var k: nat :| SplitAt(c, rs, level, k);
      SpelledIsRepresentable(c[..k], rs[0], level);
      ManySpelledAreRepresentable(c[k..], rs[1..], level);
    }
  }

  /** Headers of arrays with these many elements, one array the first element of the one before. */
  function Headers(counts: seq<nat>): bytes {
    if counts == [] then [] else [STAR] + IntDec(counts[0]) + CRLF + Headers(counts[1..])
  }

  /** Arrays nested nine deep are an error, whatever follows the type byte of the ninth: read from level 0, after the
      headers of eight non-empty arrays, each the first element of the one before. */
  lemma {:induction false} TooDeepIsError(level: nat, counts: seq<nat>, rest: bytes)
    requires level + |counts| == MAX_LEVEL && forall i :: 0 <= i < |counts| ==> 0 < counts[i] <= INT_MAX
    ensures Parse(level, Headers(counts) + [STAR] + rest) == Bad(TooDeep)
    decreases |counts|
  {
    hide Parse, IntDec;
    if counts == [] {
      NinthHeader([STAR] + rest);
      assert Headers(counts) + [STAR] + rest == [STAR] + rest;
    } else {
      var n, more := counts[0], Headers(counts[1..]);
      Associate([STAR] + IntDec(n) + CRLF, more, [STAR]);
      Associate([STAR] + IntDec(n) + CRLF, more + [STAR], rest);
      TooDeepIsError(level + 1, counts[1..], rest);
      FirstElementBad(level, n, more + [STAR] + rest);
    }
  }

  lemma NinthHeader(s: bytes)
    requires s != [] && s[0] == STAR
    ensures Parse(MAX_LEVEL, s) == Bad(TooDeep)
  {
  }

  /** An error in the first element of a non-empty array is the array's. */
  lemma FirstElementBad(level: nat, n: nat, body: bytes)
    requires level < MAX_LEVEL && 0 < n <= INT_MAX && Parse(level + 1, body).Bad?
    ensures Parse(level, [STAR] + IntDec(n) + CRLF + body) == Bad(Parse(level + 1, body).error)
  {
    var s := [STAR] + IntDec(n) + CRLF + body;
    HeadLine(STAR, n, body);
    assert IntDec(n) == Dec(n);
    ReadArrayHeader(level, s[1..], n, body);
    hide ReadItem, Dec, IntDec, Line, ParseInt;
    assert ParseMany(level + 1, n, body) == Bad(Parse(level + 1, body).error);
  }

  // ----- streams -----

  /** How a stream ends: waiting for more bytes, or with a protocol error. */
  datatype Ending = Waiting | Failed(error: Err)

  datatype Stream = Stream(replies: seq<Reply>, ending: Ending)

  function Prepend(rs: seq<Reply>, s: Stream): Stream {
    Stream(rs + s.replies, s.ending)
  }

  /** Everything a byte stream says: its replies in order, and how it ends. */
  ghost function StreamOf(s: bytes): Stream
    decreases |s|
  {
    match Parse(0, s)
    case Ok(r, rest) => Prepend([r], StreamOf(rest))
    case Need => Stream([], Waiting)
    case Bad(e) => Stream([], Failed(e))
  }

  /** A stream of encoded replies says exactly those replies. */
  lemma {:induction false} StreamOfEncoded(rs: seq<Reply>)
    requires forall i :: 0 <= i < |rs| ==> Representable(rs[i], 0)
    ensures StreamOf(EncodeMany(rs)) == Stream(rs, Waiting)
  {
    if rs != [] {
      RoundTrip(rs[0], EncodeMany(rs[1..]));
      StreamOfEncoded(rs[1..]);
    }
  }
}
