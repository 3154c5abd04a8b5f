/** sdscatrepr and sdssplitargs of sds.c: the quoted, escaped printing of byte strings and its parser. */
module SdsRepr {
  import opened Bytes

  const SPACE: byte := 32
  const QUOTE: byte := 34
  const APOSTROPHE: byte := 39
  const BACKSLASH: byte := 92
  const TAB: byte := 9
  const BELL: byte := 7
  const BACKSPACE: byte := 8
  const LETTER_A: byte := 97
  const LETTER_B: byte := 98
  const LETTER_N: byte := 110
  const LETTER_R: byte := 114
  const LETTER_T: byte := 116
  const LETTER_X: byte := 120

  /** isprint and isspace in the C locale. */
  predicate IsPrint(b: byte) {
    32 <= b < 127
  }

  predicate IsSpace(b: byte) {
    b == SPACE || 9 <= b <= 13
  }

  /** A C string: the bytes before its terminating NUL. */
  type cstring = s: bytes | 0 !in s

  // ----- printing -----

  function HexDigit(n: nat): byte
    requires n < 16
  {
    if n < 10 then 48 + n else 87 + n
  }

  function Escape(b: byte): bytes {
    if b == BACKSLASH || b == QUOTE then [BACKSLASH, b]
    else if b == LF then [BACKSLASH, LETTER_N]
    else if b == CR then [BACKSLASH, LETTER_R]
    else if b == TAB then [BACKSLASH, LETTER_T]
    else if b == BELL then [BACKSLASH, LETTER_A]
    else if b == BACKSPACE then [BACKSLASH, LETTER_B]
    else if IsPrint(b) then [b]
    else [BACKSLASH, LETTER_X, HexDigit(b / 16), HexDigit(b % 16)]
  }

  function EscapeAll(s: bytes): bytes {
    if s == [] then [] else Escape(s[0]) + EscapeAll(s[1..])
  }

  function Repr(s: bytes): bytes {
    [QUOTE] + EscapeAll(s) + [QUOTE]
  }

  lemma {:induction false} EscapeAllSnoc(s: bytes, b: byte)
    ensures EscapeAll(s + [b]) == EscapeAll(s) + Escape(b)
  {
    if s == [] {
      assert [b][1..] == [];
    } else {
      assert (s + [b])[1..] == s[1..] + [b];
      EscapeAllSnoc(s[1..], b);
    }
  }

  /** The switch of sdscatrepr on one byte. */
  method AppendEscaped(s: bytes, b: byte) returns (r: bytes)
    ensures r == s + Escape(b)
  {
    if b == BACKSLASH || b == QUOTE {
      r := s + [BACKSLASH, b];
    } else if b == LF {
      r := s + [BACKSLASH, LETTER_N];
    } else if b == CR {
      r := s + [BACKSLASH, LETTER_R];
    } else if b == TAB {
      r := s + [BACKSLASH, LETTER_T];
    } else if b == BELL {
      r := s + [BACKSLASH, LETTER_A];
    } else if b == BACKSPACE {
      r := s + [BACKSLASH, LETTER_B];
    } else if IsPrint(b) {
      r := s + [b];
    } else {
      r := s + [BACKSLASH, LETTER_X, HexDigit(b / 16), HexDigit(b % 16)];
    }
  }

  /** sdscatrepr: appends the printed form of p to s. */
  method SdsCatRepr(s: bytes, p: bytes) returns (r: bytes)
    ensures r == s + Repr(p)
  {
    r := s + [QUOTE];
    assert r + EscapeAll(p[..0]) == r;
    hide EscapeAll;
    for i := 0 to |p|
      invariant r == s + [QUOTE] + EscapeAll(p[..i])
    {
      assert p[..i + 1] == p[..i] + [p[i]];
      EscapeAllSnoc(p[..i], p[i]);
      ghost var before := r;
      r := AppendEscaped(r, p[i]);
      assert r == s + [QUOTE] + (EscapeAll(p[..i]) + Escape(p[i]));
    }
    assert p[..|p|] == p;
    r := r + [QUOTE];
  }

  /** A printed form has printable bytes only: no NUL, no line break. */
  lemma {:induction false} ReprIsPrintable(s: bytes)
    ensures forall b :: b in Repr(s) ==> IsPrint(b)
    ensures 0 !in Repr(s)
  {
    if s != [] {
      ReprIsPrintable(s[1..]);
      assert forall b :: b in EscapeAll(s[1..]) ==> b in Repr(s[1..]);
      assert forall b :: b in Escape(s[0]) ==> IsPrint(b);
    }
  }

  // ----- splitting -----

  predicate IsHexDigit(b: byte) {
    48 <= b <= 57 || 97 <= b <= 102 || 65 <= b <= 70
  }

  function HexValue(b: byte): nat
    requires IsHexDigit(b)
    ensures HexValue(b) < 16
  {
    if b <= 57 then b - 48 else if b <= 70 then b - 55 else b - 87
  }

  function Unescape(b: byte): byte {
    if b == LETTER_N then LF
    else if b == LETTER_R then CR
    else if b == LETTER_T then TAB
    else if b == LETTER_B then BACKSPACE
    else if b == LETTER_A then BELL
    else b
  }

  /** How an argument is being read: bare, in "quotes", or in 'single quotes'. */
  datatype Mode = Bare | Quoted | SingleQuoted

  /** One argument: its value and the rest of the line, or None for unbalanced or ill-followed quotes. */
  function Token(s: bytes, mode: Mode, current: bytes): (r: Option<(bytes, bytes)>)
    ensures r.Some? ==> |r.value.1| <= |s|
    decreases |s|
  {
    match mode
    case Quoted =>
      if |s| >= 4 && s[0] == BACKSLASH && s[1] == LETTER_X && IsHexDigit(s[2]) && IsHexDigit(s[3]) then
        Token(s[4..], mode, current + [HexValue(s[2]) * 16 + HexValue(s[3])])
      else if |s| >= 2 && s[0] == BACKSLASH then Token(s[2..], mode, current + [Unescape(s[1])])
      else if s == [] then None
      else if s[0] == QUOTE then (if |s| > 1 && !IsSpace(s[1]) then None else Some((current, s[1..])))
      else Token(s[1..], mode, current + [s[0]])
    case SingleQuoted =>
      if |s| >= 2 && s[0] == BACKSLASH && s[1] == APOSTROPHE then Token(s[2..], mode, current + [APOSTROPHE])
      else if s == [] then None
      else if s[0] == APOSTROPHE then (if |s| > 1 && !IsSpace(s[1]) then None else Some((current, s[1..])))
      else Token(s[1..], mode, current + [s[0]])
    case Bare =>
      if s == [] then Some((current, []))
      else if s[0] in {SPACE, LF, CR, TAB} then Some((current, s[1..]))
      else if s[0] == QUOTE then Token(s[1..], Quoted, current)
      else if s[0] == APOSTROPHE then Token(s[1..], SingleQuoted, current)
      else Token(s[1..], mode, current + [s[0]])
  }

  function SkipBlanks(s: bytes): (r: bytes)
    ensures |r| <= |s|
    ensures r != [] ==> !IsSpace(r[0])
  {
    if s != [] && IsSpace(s[0]) then SkipBlanks(s[1..]) else s
  }

  /** A whole line of arguments. */
  function Split(s: bytes): Option<seq<bytes>>
    decreases |s|
  {
    var t := SkipBlanks(s);
    if t == [] then Some([])
    else
      match Token(t, Bare, [])
      case None => None
      case Some((arg, rest)) =>
        if |rest| < |s| then
          (match Split(rest)
           case None => None
           case Some(args) => Some([arg] + args))
        else None
  }

  function Before(args: seq<bytes>, r: Option<seq<bytes>>): Option<seq<bytes>> {
    if r.None? then None else Some(args + r.value)
  }

  lemma BeforeNothing(r: Option<seq<bytes>>)
    ensures Before([], r) == r
  {
    assert r.Some? ==> [] + r.value == r.value;
  }

  /** Splitting a line whose first argument is known. */
  lemma SplitToken(s: bytes)
    requires SkipBlanks(s) != []
    ensures var t := Token(SkipBlanks(s), Bare, []);
            Split(s) == if t.None? then None else Before([t.value.0], Split(t.value.1))
  {
    TokenConsumes(SkipBlanks(s), Bare, []);
    hide Token;
  }

  /** The first byte of an argument is always consumed, so splitting makes progress. */
  lemma {:induction false} TokenConsumes(t: bytes, mode: Mode, current: bytes)
    requires t != []
    ensures var r := Token(t, mode, current); r.Some? ==> |r.value.1| < |t|
    decreases |t|
  {
  }

  /** sdssplitargs: the scanning loop with its two quoting flags; None where the source returns NULL. */
  method SdsSplitArgs(line: cstring) returns (vector: Option<seq<bytes>>)
    ensures vector == Split(line)
  {
    var p := 0;
    var args: seq<bytes> := [];
    assert line[0..] == line;
    BeforeNothing(Split(line));
    hide Token;
    while true
      invariant 0 <= p <= |line|
      invariant Split(line) == Before(args, Split(line[p..]))
      decreases |line| - p
    {
      ghost var start := line[p..];
      while p < |line| && IsSpace(line[p])
        invariant 0 <= p <= |line|
        invariant SkipBlanks(start) == SkipBlanks(line[p..])
        invariant |line[p..]| <= |start|
      {
        assert line[p..][1..] == line[p + 1..];
        p := p + 1;
      }
      ghost var t := line[p..];
      assert SkipBlanks(start) == t;
      if p == |line| {
        assert Split(start) == Some([]);
        assert args + [] == args;
        return Some(args);
      }
      TokenConsumes(t, Bare, []);
      SplitToken(start);
      var arg, next := ScanToken(line, p);
      if arg.None? {
        return None;
      }
      ghost var more := Split(line[next..]);
      assert more.Some? ==> args + ([arg.value] + more.value) == args + [arg.value] + more.value;
      args := args + [arg.value];
      p := next;
    }
  }

  /** One step of reading an argument, in terms of the line's positions. */
  lemma TokenAt(line: bytes, p: nat, mode: Mode, current: bytes)
    requires p <= |line|
    ensures var r := Token(line[p..], mode, current);
            match mode
            case Quoted =>
              if p + 3 < |line| && line[p] == BACKSLASH && line[p + 1] == LETTER_X && IsHexDigit(line[p + 2])
                 && IsHexDigit(line[p + 3])
              then r == Token(line[p + 4..], mode, current + [HexValue(line[p + 2]) * 16 + HexValue(line[p + 3])])
              else if p + 1 < |line| && line[p] == BACKSLASH
                  then r == Token(line[p + 2..], mode, current + [Unescape(line[p + 1])])
              else if p == |line| then r == None
              else if line[p] == QUOTE
              then r == if p + 1 < |line| && !IsSpace(line[p + 1]) then None else Some((current, line[p + 1..]))
              else r == Token(line[p + 1..], mode, current + [line[p]])
            case SingleQuoted =>
              if p + 1 < |line| && line[p] == BACKSLASH && line[p + 1] == APOSTROPHE
              then r == Token(line[p + 2..], mode, current + [APOSTROPHE])
              else if p == |line| then r == None
              else if line[p] == APOSTROPHE
              then r == if p + 1 < |line| && !IsSpace(line[p + 1]) then None else Some((current, line[p + 1..]))
              else r == Token(line[p + 1..], mode, current + [line[p]])
            case Bare =>
              if p == |line| then r == Some((current, line[p..]))
              else if line[p] in {SPACE, LF, CR, TAB} then r == Some((current, line[p + 1..]))
              else if line[p] == QUOTE then r == Token(line[p + 1..], Quoted, current)
              else if line[p] == APOSTROPHE then r == Token(line[p + 1..], SingleQuoted, current)
              else r == Token(line[p + 1..], mode, current + [line[p]])
  {
    var s := line[p..];
    assert p + 1 <= |line| ==> s[1..] == line[p + 1..];
    assert p + 2 <= |line| ==> s[2..] == line[p + 2..];
    assert p + 4 <= |line| ==> s[4..] == line[p + 4..];
  }

  /** The inner loop of sdssplitargs: one argument from position p0. */
  method ScanToken(line: cstring, p0: nat) returns (arg: Option<bytes>, p: nat)
    requires p0 < |line|
    ensures p0 <= p <= |line|
    ensures var t := Token(line[p0..], Bare, []);
            arg == (if t.None? then None else Some(t.value.0)) && (t.Some? ==> t.value.1 == line[p..])
  {
    hide Token;
    var inq, insq, done := false, false, false;
    var current: bytes := [];
    p := p0;
    ghost var result := Token(line[p0..], Bare, []);
    while !done
      invariant p0 <= p <= |line| && !(inq && insq)
      invariant !done ==>
                result == Token(line[p..], if inq then Quoted else if insq then SingleQuoted else Bare, current)
      invariant done ==> result == Some((current, line[p..]))
      decreases !done, |line| - p, !inq && !insq
    {
      TokenAt(line, p, if inq then Quoted else if insq then SingleQuoted else Bare, current);
      if inq {
        if p + 3 < |line| && line[p] == BACKSLASH && line[p + 1] == LETTER_X && IsHexDigit(line[p + 2])
           && IsHexDigit(line[p + 3]) {
          current := current + [HexValue(line[p + 2]) * 16 + HexValue(line[p + 3])];
          p := p + 3;
        } else if p + 1 < |line| && line[p] == BACKSLASH {
          p := p + 1;
          current := current + [Unescape(line[p])];
        } else if p < |line| && line[p] == QUOTE {
          if p + 1 < |line| && !IsSpace(line[p + 1]) {
            return None, p;
          }
          done := true;
        } else if p == |line| {
          return None, p;
        } else {
          current := current + [line[p]];
        }
      } else if insq {
        if p + 1 < |line| && line[p] == BACKSLASH && line[p + 1] == APOSTROPHE {
          p := p + 1;
          current := current + [APOSTROPHE];
        } else if p < |line| && line[p] == APOSTROPHE {
          if p + 1 < |line| && !IsSpace(line[p + 1]) {
            return None, p;
          }
          done := true;
        } else if p == |line| {
          return None, p;
        } else {
          current := current + [line[p]];
        }
      } else {
        if p == |line| || line[p] in {SPACE, LF, CR, TAB} {
          done := true;
        } else if line[p] == QUOTE {
          inq := true;
        } else if line[p] == APOSTROPHE {
          insq := true;
        } else {
          current := current + [line[p]];
        }
      }
      if p < |line| {
        p := p + 1;
      }
    }
    arg := Some(current);
  }

  // ----- the round trip -----

  /** An escaped byte is read back inside quotes. */
  lemma TokenEscape(b: byte, t: bytes, current: bytes)
    ensures Token(Escape(b) + t, Quoted, current) == Token(t, Quoted, current + [b])
  {
    var e := Escape(b);
    var s := e + t;
    assert s[|e|..] == t;
    assert b / 16 * 16 + b % 16 == b;
    if |e| == 4 {
      assert s[2] == HexDigit(b / 16) && s[3] == HexDigit(b % 16);
      assert HexValue(s[2]) == b / 16 && HexValue(s[3]) == b % 16;
    }
  }

  lemma {:induction false} TokenBody(a: bytes, t: bytes, current: bytes)
    requires t == [] || IsSpace(t[0])
    ensures Token(EscapeAll(a) + [QUOTE] + t, Quoted, current) == Some((current + a, t))
  {
    if a == [] {
      var s := [QUOTE] + t;
      assert EscapeAll(a) + [QUOTE] + t == s && s[1..] == t && current + a == current;
    } else {
      hide Token, Escape;
      var more := EscapeAll(a[1..]) + [QUOTE] + t;
      Associate(Escape(a[0]), EscapeAll(a[1..]), [QUOTE]);
      Associate(Escape(a[0]), EscapeAll(a[1..]) + [QUOTE], t);
      TokenEscape(a[0], more, current);
      TokenBody(a[1..], t, current + [a[0]]);
      assert current + [a[0]] + a[1..] == current + a;
    }
  }

  /** sdsjoin with a single space. */
  function JoinReprs(args: seq<bytes>): bytes {
    if args == [] then []
    else if |args| == 1 then Repr(args[0])
    else Repr(args[0]) + [SPACE] + JoinReprs(args[1..])
  }

  /** Printing every string and splitting the line gives the strings back, whatever bytes they hold. */
  lemma {:induction false} SplitOfReprs(args: seq<bytes>)
    ensures Split(JoinReprs(args)) == Some(args)
    ensures 0 !in JoinReprs(args)
  {
    if args != [] {
      var a, more := args[0], args[1..];
      SplitOfReprs(more);
      ReprIsPrintable(a);
      var t := if more == [] then [] else [SPACE] + JoinReprs(more);
      assert JoinReprs(args) == Repr(a) + t;
      SplitRepr(a, t);
      if more != [] {
        SplitAfterSpace(JoinReprs(more));
      }
      hide Split, Repr;
      assert [a] + more == args;
    }
  }

  /** A printed string at the front of a line is its first argument. */
  lemma SplitRepr(a: bytes, t: bytes)
    requires t == [] || IsSpace(t[0])
    ensures Split(Repr(a) + t) == Before([a], Split(t))
  {
    var s := Repr(a) + t;
    var body := EscapeAll(a) + [QUOTE] + t;
    assert s == [QUOTE] + body && s[1..] == body;
    TokenBody(a, t, []);
    assert [] + a == a;
    assert Token(s, Bare, []) == Token(body, Quoted, []);
    hide Token;
    SplitToken(s);
  }

  lemma SplitAfterSpace(s: bytes)
    ensures Split([SPACE] + s) == Split(s)
  {
    assert ([SPACE] + s)[1..] == s;
    assert SkipBlanks([SPACE] + s) == SkipBlanks(s);
    if SkipBlanks(s) != [] {
      SplitToken(s);
      SplitToken([SPACE] + s);
    }
    hide Token;
  }

  /** Different strings never print alike. */
  lemma ReprInjective(a: bytes, b: bytes)
    requires Repr(a) == Repr(b)
    ensures a == b
  {
    SplitOfReprs([a]);
    SplitOfReprs([b]);
    assert JoinReprs([a]) == JoinReprs([b]);
    assert [a][0] == [b][0];
  }
}
