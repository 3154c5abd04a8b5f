/** The lines sdssplitargs of sds.c accepts, written down as a grammar with the bytes as numbers, and what they
    mean. */
module SdsArgs {
  import opened Bytes
  import opened SdsRepr

  /** What may stand between quotes: a byte, a backslash and a byte, or a backslash, an x and two hex digits. */
  datatype Item = Plain(b: byte) | Slash(c: byte) | Hex(h: byte, l: byte)

  /** An argument: bytes without quotes, then perhaps a part in quotes, which ends it. */
  datatype Arg = Arg(bare: bytes, part: Part)

  datatype Part = Nothing | Double(items: seq<Item>) | Single(items: seq<Item>)

  /** A line: arguments with blanks before, between and after them. */
  datatype Line = End(blanks: bytes) | Next(blanks: bytes, arg: Arg, more: Line)

  // ----- the text -----

  function ItemText(i: Item): bytes {
    match i
    case Plain(b) => [b]
    case Slash(c) => [92, c]
    case Hex(h, l) => [92, 120, h, l]
  }

  function Text(items: seq<Item>): bytes {
    if items == [] then [] else ItemText(items[0]) + Text(items[1..])
  }

  function PartText(p: Part): bytes {
    match p
    case Nothing => []
    case Double(items) => [34] + Text(items) + [34]
    case Single(items) => [39] + Text(items) + [39]
  }

  function LineText(l: Line): bytes {
    match l
    case End(blanks) => blanks
    case Next(blanks, arg, more) => blanks + (arg.bare + PartText(arg.part) + LineText(more))
  }

  // ----- the meaning -----

  predicate HexByte(b: byte) {
    48 <= b <= 57 || 65 <= b <= 70 || 97 <= b <= 102
  }

  function HexDigitValue(b: byte): nat
    requires HexByte(b)
    ensures HexDigitValue(b) < 16
  {
    if b <= 57 then b - 48 else if b <= 70 then b - 55 else b - 87
  }

  /** The byte an item between double quotes stands for. */
  function Meaning(i: Item): byte
    requires i.Hex? ==> HexByte(i.h) && HexByte(i.l)
  {
    match i
    case Plain(b) => b
    case Slash(c) =>
      if c == 110 then 10 else if c == 114 then 13 else if c == 116 then 9 else if c == 98 then 8
      else if c == 97 then 7 else c
    case Hex(h, l) => 16 * HexDigitValue(h) + HexDigitValue(l)
  }

  /** Between double quotes; a backslash and an x with two hex digits after them are one item. */
  predicate InDouble(items: seq<Item>) {
    items == []
    || (var i, t := items[0], Text(items[1..]);
        && (i.Plain? ==> i.b != 34 && i.b != 92)
        && (i.Slash? && i.c == 120 ==> !(|t| >= 2 && HexByte(t[0]) && HexByte(t[1])))
        && (i.Hex? ==> HexByte(i.h) && HexByte(i.l))
        && InDouble(items[1..]))
  }

  /** Between single quotes the only escape is that of the quote itself. */
  predicate InSingle(items: seq<Item>) {
    items == []
    || (var i := items[0];
        && (i == Slash(39) || (i.Plain? && i.b != 39 && (i.b == 92 ==> |items| > 1)))
        && InSingle(items[1..]))
  }

  function Means(items: seq<Item>): bytes
    requires InDouble(items) || InSingle(items)
  {
    if items == [] then [] else [Meaning(items[0])] + Means(items[1..])
  }

  predicate PartOk(p: Part) {
    match p
    case Nothing => true
    case Double(items) => InDouble(items)
    case Single(items) => InSingle(items)
  }

  function PartValue(p: Part): bytes
    requires PartOk(p)
  {
    if p.Nothing? then [] else Means(p.items)
  }

  predicate Blank(b: byte) {
    b == 32 || 9 <= b <= 13
  }

  /** What ends an argument without quotes. */
  predicate Ends(b: byte) {
    b == 32 || b == 9 || b == 10 || b == 13
  }

  predicate Blanks(s: bytes) {
    forall i :: 0 <= i < |s| ==> Blank(s[i])
  }

  predicate Unquoted(s: bytes) {
    forall i :: 0 <= i < |s| ==> !Ends(s[i]) && s[i] != 34 && s[i] != 39
  }

  /** An argument without quotes is not empty, and none begins with a blank. */
  predicate ArgOk(a: Arg) {
    && Unquoted(a.bare) && PartOk(a.part)
    && (a.bare != [] ==> !Blank(a.bare[0]))
    && (a.part.Nothing? ==> a.bare != [])
  }

  predicate LineOk(l: Line) {
    && Blanks(l.blanks)
    && (l.Next? ==> ArgOk(l.arg) && LineOk(l.more) && Apart(l.arg.part, LineText(l.more)))
  }

  /** Whether t may follow an argument. */
  predicate Apart(p: Part, t: bytes) {
    t != [] ==> if p.Nothing? then Ends(t[0]) else Blank(t[0])
  }

  /** What is left of t after the argument: the byte that ends one without quotes is dropped. */
  function After(p: Part, t: bytes): bytes {
    if p.Nothing? && t != [] then t[1..] else t
  }

  function LineArgs(l: Line): seq<bytes>
    requires LineOk(l)
  {
    match l
    case End(_) => []
    case Next(_, arg, more) => [arg.bare + PartValue(arg.part)] + LineArgs(more)
  }

  // ----- every line of the grammar is split into its arguments -----

  lemma {:induction false} ReadDouble(items: seq<Item>, t: bytes, current: bytes)
    requires InDouble(items) && (t != [] ==> Blank(t[0]))
    ensures Token(Text(items) + [34] + t, Quoted, current) == Some((current + Means(items), t))
  {
    hide Token;
    var s := Text(items) + [34] + t;
    if items == [] {
      assert s == [34] + t && s[1..] == t && current + [] == current;
      Step(s, Quoted, current);
    } else {
      var more := Text(items[1..]) + [34] + t;
      FirstOf(ItemText(items[0]), Text(items[1..]), 34, t);
      ReadItem(items[0], more, current);
      ReadDouble(items[1..], t, current + [Meaning(items[0])]);
      Associate(current, [Meaning(items[0])], Means(items[1..]));
    }
  }

  lemma ReadItem(i: Item, s: bytes, current: bytes)
    requires i.Plain? ==> i.b != 34 && i.b != 92
    requires i.Slash? && i.c == 120 ==> !(|s| >= 2 && HexByte(s[0]) && HexByte(s[1]))
    requires i.Hex? ==> HexByte(i.h) && HexByte(i.l)
    ensures Token(ItemText(i) + s, Quoted, current) == Token(s, Quoted, current + [Meaning(i)])
  {
    hide Token;
    var n := |ItemText(i)|;
    var w := ItemText(i) + s;
    Step(w, Quoted, current);
    assert w[n..] == s;
    match i
    case Plain(b) => assert w[0] == b;
    case Slash(c) => assert w[0] == 92 && w[1] == c && w[2..] == s;
    case Hex(h, l) => assert w[0] == 92 && w[1] == 120 && w[2] == h && w[3] == l && w[4..] == s;
  }

  lemma Step(s: bytes, mode: Mode, current: bytes)
    ensures var r := Token(s, mode, current);
            match mode
            case Quoted =>
              if |s| >= 4 && s[0] == 92 && s[1] == 120 && HexByte(s[2]) && HexByte(s[3])
              then r == Token(s[4..], mode, current + [16 * HexDigitValue(s[2]) + HexDigitValue(s[3])])
              else if |s| >= 2 && s[0] == 92 then r == Token(s[2..], mode, current + [Meaning(Slash(s[1]))])
              else if s == [] then r == None
              else if s[0] == 34 then r == if |s| > 1 && !Blank(s[1]) then None else Some((current, s[1..]))
              else r == Token(s[1..], mode, current + [s[0]])
            case SingleQuoted =>
              if |s| >= 2 && s[0] == 92 && s[1] == 39 then r == Token(s[2..], mode, current + [39])
              else if s == [] then r == None
              else if s[0] == 39 then r == if |s| > 1 && !Blank(s[1]) then None else Some((current, s[1..]))
              else r == Token(s[1..], mode, current + [s[0]])
            case Bare =>
              if s == [] then r == Some((current, []))
              else if Ends(s[0]) then r == Some((current, s[1..]))
              else if s[0] == 34 then r == Token(s[1..], Quoted, current)
              else if s[0] == 39 then r == Token(s[1..], SingleQuoted, current)
              else r == Token(s[1..], mode, current + [s[0]])
  {
  }

  lemma {:induction false} ReadSingle(items: seq<Item>, t: bytes, current: bytes)
    requires InSingle(items) && (t != [] ==> Blank(t[0]))
    ensures Token(Text(items) + [39] + t, SingleQuoted, current) == Some((current + Means(items), t))
  {
    hide Token;
    var s := Text(items) + [39] + t;
    Step(s, SingleQuoted, current);
    if items == [] {
      assert s == [39] + t && s[1..] == t && current + [] == current;
    } else {
      var i := items[0];
      var more := Text(items[1..]) + [39] + t;
      FirstOf(ItemText(i), Text(items[1..]), 39, t);
      if |items| > 1 {
        NoQuoteFirst(items[1..]);
      }
      hide Text;
      assert more[0] == 39 ==> |items| == 1;
      assert Token(s, SingleQuoted, current) == Token(more, SingleQuoted, current + [Meaning(i)]);
      ReadSingle(items[1..], t, current + [Meaning(i)]);
      Associate(current, [Meaning(i)], Means(items[1..]));
    }
  }

  lemma {:induction false} ReadBare(bare: bytes, t: bytes, current: bytes)
    requires Unquoted(bare)
    ensures Token(bare + t, Bare, current) == Token(t, Bare, current + bare)
  {
    if bare == [] {
      assert bare + t == t && current + bare == current;
    } else {
      var s := bare + t;
      assert s[0] == bare[0] && s[1..] == bare[1..] + t;
      Step(s, Bare, current);
      hide Token;
      ReadBare(bare[1..], t, current + [bare[0]]);
      assert current + [bare[0]] + bare[1..] == current + bare;
    }
  }

  lemma Enclosed(q: byte, x: bytes, t: bytes)
    ensures var s := [q] + x + [q] + t; s[0] == q && s[1..] == x + [q] + t
  {
  }

  /** Text between quotes, with its first item apart. */
  lemma FirstOf(first: bytes, more: bytes, q: byte, t: bytes)
    ensures var s := first + more + [q] + t;
            s == first + (more + [q] + t) && s[|first|..] == more + [q] + t
  {
  }

  lemma {:induction false} NoQuoteFirst(items: seq<Item>)
    requires InSingle(items) && items != []
    ensures Text(items) != [] && Text(items)[0] != 39
  {
  }

  lemma ReadPart(p: Part, t: bytes, current: bytes)
    requires PartOk(p) && Apart(p, t)
    ensures Token(PartText(p) + t, Bare, current) == Some((current + PartValue(p), After(p, t)))
  {
    hide Means, InDouble, InSingle, Token, Text;
    var s := PartText(p) + t;
    Step(s, Bare, current);
    match p
    case Nothing =>
      assert s == t && current + [] == current;
    case Double(items) =>
      Enclosed(34, Text(items), t);
      ReadDouble(items, t, current);
    case Single(items) =>
      Enclosed(39, Text(items), t);
      ReadSingle(items, t, current);
  }

  lemma ReadArg(a: Arg, t: bytes)
    requires ArgOk(a) && Apart(a.part, t)
    ensures Token(a.bare + PartText(a.part) + t, Bare, []) == Some((a.bare + PartValue(a.part), After(a.part, t)))
  {
    hide Token, PartText, PartValue, Apart, PartOk;
    Associate(a.bare, PartText(a.part), t);
    ReadBare(a.bare, PartText(a.part) + t, []);
    assert [] + a.bare == a.bare;
    ReadPart(a.part, t, a.bare);
  }

  lemma {:induction false} SkipAll(blanks: bytes, t: bytes)
    requires Blanks(blanks)
    ensures SkipBlanks(blanks + t) == SkipBlanks(t)
  {
    if blanks == [] {
      assert blanks + t == t;
    } else {
      assert (blanks + t)[0] == blanks[0] && (blanks + t)[1..] == blanks[1..] + t;
      SkipAll(blanks[1..], t);
    }
  }

  lemma SplitAfterBlanks(blanks: bytes, t: bytes)
    requires Blanks(blanks)
    ensures Split(blanks + t) == Split(t)
  {
    SkipAll(blanks, t);
    if SkipBlanks(t) != [] {
      SplitToken(t);
      SplitToken(blanks + t);
    }
    hide Token;
  }

  /** A line of the grammar is split into exactly its arguments. */
  lemma {:induction false} SplitOfLine(l: Line)
    requires LineOk(l)
    ensures Split(LineText(l)) == Some(LineArgs(l))
  {
    hide Token, PartValue, PartText, PartOk, Split;
    match l
    case End(blanks) =>
      assert blanks + [] == blanks;
      SplitAfterBlanks(blanks, []);
      SplitNothing();
    case Next(blanks, a, more) =>
      var t := LineText(more);
      var s := a.bare + PartText(a.part) + t;
      SplitAfterBlanks(blanks, s);
      NotBlank(a, t);
      SplitToken(s);
      ReadArg(a, t);
      SplitOfLine(more);
      if t != [] {
        assert t == [t[0]] + t[1..];
        SplitAfterBlanks([t[0]], t[1..]);
      }
  }

  lemma SplitNothing()
    ensures Split([]) == Some([])
  {
  }

  lemma NotBlank(a: Arg, t: bytes)
    requires ArgOk(a)
    ensures SkipBlanks(a.bare + PartText(a.part) + t) == a.bare + PartText(a.part) + t != []
  {
    hide Text, InDouble, InSingle;
  }

  // ----- every line that is split is one of the grammar -----

  lemma {:induction false} ItemsOf(s: bytes, current: bytes) returns (items: seq<Item>, t: bytes)
    requires Token(s, Quoted, current).Some?
    ensures InDouble(items) && s == Text(items) + [34] + t && (t != [] ==> Blank(t[0]))
    ensures Token(s, Quoted, current) == Some((current + Means(items), t))
    decreases |s|
  {
    hide Token;
    Step(s, Quoted, current);
    if s[0] == 34 {
      items, t := [], s[1..];
      assert s == [34] + t && current + [] == current;
    } else {
      var i := FirstItem(s, current);
      var n := |ItemText(i)|;
      var more;
      more, t := ItemsOf(s[n..], current + [Meaning(i)]);
      items := [i] + more;
      assert items[1..] == more && s == ItemText(i) + s[n..];
      assert s[n..] == Text(more) + [34] + t;
      Associate(ItemText(i), Text(more) + [34], t);
      Associate(ItemText(i), Text(more), [34]);
      Associate(current, [Meaning(i)], Means(more));
    }
  }

  lemma FirstItem(s: bytes, current: bytes) returns (i: Item)
    requires Token(s, Quoted, current).Some? && s != [] && s[0] != 34
    ensures i.Plain? ==> i.b != 34 && i.b != 92
    ensures i.Hex? ==> HexByte(i.h) && HexByte(i.l)
    ensures var n := |ItemText(i)|;
            && n <= |s| && s[..n] == ItemText(i)
            && Token(s, Quoted, current) == Token(s[n..], Quoted, current + [Meaning(i)])
            && (i.Slash? && i.c == 120 ==> !(|s| >= n + 2 && HexByte(s[n]) && HexByte(s[n + 1])))
  {
    hide Token;
    Step(s, Quoted, current);
    if |s| >= 4 && s[0] == 92 && s[1] == 120 && HexByte(s[2]) && HexByte(s[3]) {
      i := Hex(s[2], s[3]);
    } else if s[0] == 92 {
      if |s| == 1 {
        LoneSlash(s, current);
      }
      i := Slash(s[1]);
    } else {
      i := Plain(s[0]);
    }
  }

  /** A backslash that ends the line leaves the quotes open. */
  lemma LoneSlash(s: bytes, current: bytes)
    requires |s| == 1 && s[0] == 92
    ensures Token(s, Quoted, current) == None
  {
    hide Token;
    Step(s, Quoted, current);
    assert s[1..] == [];
    Step(s[1..], Quoted, current + [92]);
  }

  lemma {:induction false} SinglesOf(s: bytes, current: bytes) returns (items: seq<Item>, t: bytes)
    requires Token(s, SingleQuoted, current).Some?
    ensures InSingle(items) && s == Text(items) + [39] + t && (t != [] ==> Blank(t[0]))
    ensures Token(s, SingleQuoted, current) == Some((current + Means(items), t))
    decreases |s|
  {
    hide Token;
    Step(s, SingleQuoted, current);
    if s[0] == 39 {
      items, t := [], s[1..];
      assert s == [39] + t && current + [] == current;
    } else {
      var i := if |s| >= 2 && s[0] == 92 && s[1] == 39 then Slash(39) else Plain(s[0]);
      var n := |ItemText(i)|;
      var more;
      more, t := SinglesOf(s[n..], current + [Meaning(i)]);
      items := [i] + more;
      assert items[1..] == more && s == ItemText(i) + s[n..];
      assert s[n..] == Text(more) + [39] + t;
      Associate(ItemText(i), Text(more) + [39], t);
      Associate(ItemText(i), Text(more), [39]);
      Associate(current, [Meaning(i)], Means(more));
    }
  }

  lemma PartOf(s: bytes, current: bytes) returns (p: Part, t: bytes)
    requires Token(s, Bare, current).Some? && (s != [] ==> Ends(s[0]) || s[0] == 34 || s[0] == 39)
    ensures PartOk(p) && Apart(p, t) && s == PartText(p) + t
    ensures Token(s, Bare, current) == Some((current + PartValue(p), After(p, t)))
  {
    hide InDouble, InSingle, Means, Text, Token;
    Step(s, Bare, current);
    if s == [] || Ends(s[0]) {
      p, t := Nothing, s;
      assert current + [] == current;
    } else if s[0] == 34 {
      var items;
      items, t := ItemsOf(s[1..], current);
      p := Double(items);
      assert s == [34] + s[1..];
      LeadByte(34, Text(items), [34], t);
    } else {
      var items;
      items, t := SinglesOf(s[1..], current);
      p := Single(items);
      assert s == [39] + s[1..];
      LeadByte(39, Text(items), [39], t);
    }
  }

  lemma {:induction false} ArgOf(s: bytes, current: bytes) returns (bare: bytes, p: Part, t: bytes)
    requires Token(s, Bare, current).Some?
    ensures Unquoted(bare) && PartOk(p) && Apart(p, t) && s == bare + PartText(p) + t
    ensures bare != [] ==> bare[0] == s[0]
    ensures p.Nothing? && bare == [] ==> t == s
    ensures Token(s, Bare, current) == Some((current + bare + PartValue(p), After(p, t)))
    decreases |s|
  {
    if s == [] || Ends(s[0]) || s[0] == 34 || s[0] == 39 {
      hide PartText, PartValue, PartOk, Apart, After, Token;
      bare := [];
      p, t := PartOf(s, current);
      assert current + bare == current && bare + PartText(p) == PartText(p);
    } else {
      hide PartText, PartValue, PartOk, Apart, After, Token, Unquoted;
      Step(s, Bare, current);
      var rest;
      rest, p, t := ArgOf(s[1..], current + [s[0]]);
      bare := [s[0]] + rest;
      UnquotedMore(s[0], rest);
      Snoc(s, rest, PartText(p), t);
      assert current + [s[0]] + rest == current + bare;
    }
  }

  lemma UnquotedMore(b: byte, rest: bytes)
    requires Unquoted(rest) && !Ends(b) && b != 34 && b != 39
    ensures Unquoted([b] + rest)
  {
  }

  lemma LeadByte(b: byte, x: bytes, y: bytes, z: bytes)
    ensures [b] + (x + y + z) == [b] + x + y + z
  {
  }

  lemma Snoc(s: bytes, rest: bytes, p: bytes, t: bytes)
    requires s != [] && s[1..] == rest + p + t
    ensures s == [s[0]] + rest + p + t
  {
    assert s == [s[0]] + s[1..];
  }

  lemma {:induction false} BlanksOf(s: bytes) returns (blanks: bytes)
    ensures Blanks(blanks) && s == blanks + SkipBlanks(s)
  {
    blanks := [];
    if s != [] && Blank(s[0]) {
      var more := BlanksOf(s[1..]);
      blanks := [s[0]] + more;
      assert SkipBlanks(s) == SkipBlanks(s[1..]);
      hide SkipBlanks;
      assert s == [s[0]] + s[1..];
      Associate([s[0]], more, SkipBlanks(s));
    } else {
      assert blanks + SkipBlanks(s) == s;
    }
  }

  lemma {:induction false} LineOf(s: bytes) returns (l: Line)
    requires Split(s).Some?
    ensures LineOk(l) && LineText(l) == s && LineArgs(l) == Split(s).value
    decreases |s|
  {
    hide Token, Split, PartText, PartValue, PartOk, Unquoted;
    var u := SkipBlanks(s);
    var blanks := BlanksOf(s);
    if u == [] {
      l := End(blanks);
      assert s == blanks;
      SplitAfterBlanks(blanks, []);
      assert blanks + [] == blanks;
      SplitNothing();
    } else {
      SplitToken(s);
      TokenConsumes(u, Bare, []);
      var bare, part, t := ArgOf(u, []);
      assert [] + bare == bare;
      Began(u, bare, part, t);
      var more := LineOf(After(part, t));
      more := Rejoin(part, t, more);
      l := Next(blanks, Arg(bare, part), more);
    }
  }

  lemma Began(u: bytes, bare: bytes, part: Part, t: bytes)
    requires u != [] && !Blank(u[0]) && Apart(part, t) && (bare != [] ==> bare[0] == u[0])
    requires part.Nothing? && bare == [] ==> t == u
    ensures bare != [] ==> !Blank(bare[0])
    ensures part.Nothing? ==> bare != []
  {
  }

  /** The line after an argument, with the byte that ended it put back. */
  lemma Rejoin(part: Part, t: bytes, more: Line) returns (l: Line)
    requires Apart(part, t) && LineOk(more) && LineText(more) == After(part, t)
    ensures LineOk(l) && LineText(l) == t && LineArgs(l) == LineArgs(more)
  {
    hide PartText, PartValue, PartOk, Unquoted;
    l := more;
    if part.Nothing? && t != [] {
      l := more.(blanks := [t[0]] + more.blanks);
      assert t == [t[0]] + t[1..];
      if more.Next? {
        Associate([t[0]], more.blanks, more.arg.bare + PartText(more.arg.part) + LineText(more.more));
      }
    }
  }

  /** A line is split into args exactly when it is a line of the grammar with those arguments; sdssplitargs gives
      NULL for every other one. */
  lemma SplitExactly(s: bytes, args: seq<bytes>)
    ensures Split(s) == Some(args) <==> exists l :: LineOk(l) && LineText(l) == s && LineArgs(l) == args
  {
    hide Split, LineOk, LineText, LineArgs;
    if Split(s) == Some(args) {
      var l := LineOf(s);
    }
    forall l | LineOk(l) && LineText(l) == s && LineArgs(l) == args
      ensures Split(s) == Some(args)
    {
      SplitOfLine(l);
    }
  }

  /** The line in which words stand with gaps before, between and after them. */
  function Spread(words: seq<bytes>, gaps: seq<bytes>): bytes
    requires |gaps| == |words| + 1
  {
    if words == [] then gaps[0] else gaps[0] + (words[0] + Spread(words[1..], gaps[1..]))
  }

  predicate Word(w: bytes) {
    w != [] && !Blank(w[0]) && Unquoted(w)
  }

  /** Blanks, any at the front of the line; after a word the first is one that ends it, and only at the end of the
      line there may be none. */
  predicate Gap(g: bytes, first: bool, last: bool) {
    Blanks(g) && (!first ==> (g == [] ==> last) && (g != [] ==> Ends(g[0])))
  }

  /** Words without quotes are split at the blanks between them, whatever these are. */
  lemma SplitWords(words: seq<bytes>, gaps: seq<bytes>)
    requires |gaps| == |words| + 1
    requires forall i :: 0 <= i < |words| ==> Word(words[i])
    requires forall i :: 0 <= i < |gaps| ==> Gap(gaps[i], i == 0, i == |words|)
    ensures Split(Spread(words, gaps)) == Some(words)
  {
    hide Split, LineOk, LineText, Spread;
    var l := LineOfWords(words, gaps, true);
    SplitOfLine(l);
  }

  lemma {:induction false} LineOfWords(words: seq<bytes>, gaps: seq<bytes>, first: bool) returns (l: Line)
    requires |gaps| == |words| + 1
    requires forall i :: 0 <= i < |words| ==> Word(words[i])
    requires forall i :: 0 <= i < |gaps| ==> Gap(gaps[i], first && i == 0, i == |words|)
    ensures LineOk(l) && LineText(l) == Spread(words, gaps) && LineArgs(l) == words && l.blanks == gaps[0]
  {
    hide Unquoted, Blanks;
    if words == [] {
      l := End(gaps[0]);
    } else {
      assert Word(words[0]) && Gap(gaps[0], first, false) && Gap(gaps[1], false, |words| == 1);
      var more := LineOfWords(words[1..], gaps[1..], false);
      l := Next(gaps[0], Arg(words[0], Nothing), more);
      assert words[0] + [] == words[0];
      assert gaps[1] != [] ==> LineText(more)[0] == gaps[1][0];
      assert [words[0]] + words[1..] == words;
    }
  }

  // ----- the printed form -----

  /** How a byte is written between quotes: the short escapes, the printable ASCII bytes as they are, and lower-case
      hex for all others. */
  function Spelt(b: byte): Item {
    if b == 34 || b == 92 then Slash(b)
    else if b == 7 then Slash(97)
    else if b == 8 then Slash(98)
    else if b == 9 then Slash(116)
    else if b == 10 then Slash(110)
    else if b == 13 then Slash(114)
    else if 32 <= b <= 126 then Plain(b)
    else Hex(HEX[b / 16], HEX[b % 16])
  }

  const HEX: bytes := [48, 49, 50, 51, 52, 53, 54, 55, 56, 57, 97, 98, 99, 100, 101, 102]

  function SpeltAll(s: bytes): seq<Item> {
    if s == [] then [] else [Spelt(s[0])] + SpeltAll(s[1..])
  }

  /** A printed string is a quoted argument of the grammar, each byte one item, and means the string. */
  lemma {:induction false} ReprSpells(s: bytes)
    ensures EscapeAll(s) == Text(SpeltAll(s)) && InDouble(SpeltAll(s)) && Means(SpeltAll(s)) == s
    ensures Repr(s) == PartText(Double(SpeltAll(s)))
  {
    if s != [] {
      ReprSpells(s[1..]);
      var items := SpeltAll(s);
      assert items[0] == Spelt(s[0]) && items[1..] == SpeltAll(s[1..]);
      SpeltMeans(s[0]);
      assert [s[0]] + s[1..] == s;
    }
  }

  lemma SpeltMeans(b: byte)
    ensures var i := Spelt(b);
            && ItemText(i) == Escape(b) && (i.Plain? ==> i.b != 34 && i.b != 92) && (i.Slash? ==> i.c != 120)
            && (i.Hex? ==> HexByte(i.h) && HexByte(i.l)) && Meaning(i) == b
  {
    assert b / 16 * 16 + b % 16 == b;
  }
}
