/** The command formatters of hiredis.c: redisFormatCommandArgv and redisFormatSdsCommandArgv. */
module CommandWriter {
  import opened Bytes
  import opened Decimal
  import opened RespGrammar

  function Strs(argv: seq<bytes>): (rs: seq<Reply>)
    ensures |rs| == |argv|
  {
    seq(|argv|, i requires 0 <= i < |argv| => Str(argv[i]))
  }

  /** The array of bulk strings a command is sent as. */
  function Command(argv: seq<bytes>): bytes {
    Encode(Array(Strs(argv)))
  }

  /** The arguments with their lengths written out, in numbers. */
  function BulksWith(argv: seq<bytes>, lens: seq<bytes>): bytes
    requires |lens| == |argv|
  {
    if argv == [] then []
    else [36] + lens[0] + [13, 10] + argv[0] + [13, 10] + BulksWith(argv[1..], lens[1..])
  }

  /** A command byte by byte, given the decimals of its count and its lengths. */
  lemma CommandInNumbers(argv: seq<bytes>, count: bytes, lens: seq<bytes>)
    requires |lens| == |argv| && Denotes(count, |argv|)
    requires forall i :: 0 <= i < |argv| ==> Denotes(lens[i], |argv[i]|)
    ensures Command(argv) == [42] + count + [13, 10] + BulksWith(argv, lens)
  {
    hide Denotes, EncodeMany, BulksWith;
    IntDecExactly(|argv|, count);
    BulksInNumbers(argv, lens);
  }

  lemma {:induction false} BulksInNumbers(argv: seq<bytes>, lens: seq<bytes>)
    requires |lens| == |argv|
    requires forall i :: 0 <= i < |argv| ==> Denotes(lens[i], |argv[i]|)
    ensures EncodeMany(Strs(argv)) == BulksWith(argv, lens)
  {
    hide Denotes, Dec;
    if argv != [] {
      assert Strs(argv)[0] == Str(argv[0]) && Strs(argv)[1..] == Strs(argv[1..]);
      IntDecExactly(|argv[0]|, lens[0]);
      BulksInNumbers(argv[1..], lens[1..]);
    }
  }

  /** bulklen */
  function BulkLen(len: nat): nat {
    1 + |Dec(len)| + 2 + len + 2
  }

  function BulksLen(argv: seq<bytes>): nat {
    if argv == [] then 0 else BulksLen(argv[..|argv| - 1]) + BulkLen(|argv[|argv| - 1]|)
  }

  /** The total both formatters compute before writing anything. */
  function TotalLen(argv: seq<bytes>): nat {
    1 + |Dec(|argv|)| + 2 + BulksLen(argv)
  }

  const TWO64 := 0x1_0000_0000_0000_0000

  /** What an int keeps of a number: its lowest 32 bits, as a signed number. */
  function ToInt(n: int): (i: int)
    ensures -INT_MAX - 1 <= i <= INT_MAX
    ensures 0 <= n <= INT_MAX ==> i == n
  {
    var r := n % TWO32;
    if r <= INT_MAX then r else r - TWO32
  }

  /** Only the lowest 32 bits of what is added matter. */
  lemma ToIntAdd(n: nat, k: nat)
    ensures ToInt(ToInt(n) + k % TWO64) == ToInt(n + k)
  {
    Lowest(ToInt(n) + k % TWO64, n + k, (if n % TWO32 <= INT_MAX then 0 else -1) - n / TWO32 - k / TWO64 * TWO32);
  }

  lemma Lowest(x: int, y: int, q: int)
    requires x == y + q * TWO32
    ensures ToInt(x) == ToInt(y)
  {
  }

  /** What becomes of redisFormatCommandArgv: the command; -1, as no buffer of a negative int's size can be had; or a
      buffer smaller than what is written to it. */
  datatype Formatted = Done(cmd: bytes) | NoBuffer | TooSmall

  /** The buffer's size is an int one above the int total, so for totals from INT_MAX on it is not the command's. */
  function Plain(argv: seq<bytes>): Formatted {
    var size := ToInt(TotalLen(argv) + 1);
    if size < 0 then NoBuffer else if size <= TotalLen(argv) then TooSmall else Done(Command(argv))
  }

  lemma {:induction false} EncodeManySnoc(rs: seq<Reply>, r: Reply)
    ensures EncodeMany(rs + [r]) == EncodeMany(rs) + Encode(r)
  {
    if rs == [] {
      assert [r][1..] == [];
    } else {
      assert (rs + [r])[1..] == rs[1..] + [r];
      EncodeManySnoc(rs[1..], r);
    }
  }

  /** The bulks of one more argument. */
  lemma NextBulk(argv: seq<bytes>, j: nat)
    requires j < |argv|
    ensures EncodeMany(Strs(argv[..j + 1])) == EncodeMany(Strs(argv[..j])) + Bulk(argv[j])
    ensures BulksLen(argv[..j + 1]) == BulksLen(argv[..j]) + |Bulk(argv[j])|
    ensures |Bulk(argv[j])| == BulkLen(|argv[j]|)
  {
    assert argv[..j + 1][..j] == argv[..j];
    assert Strs(argv[..j + 1]) == Strs(argv[..j]) + [Str(argv[j])];
    EncodeManySnoc(Strs(argv[..j]), Str(argv[j]));
  }

  /** The precomputed total is exactly the length of the command. */
  lemma {:induction false} TotalIsExact(argv: seq<bytes>, j: nat)
    requires j <= |argv|
    ensures BulksLen(argv[..j]) == |EncodeMany(Strs(argv[..j]))|
    ensures |Command(argv)| == 1 + |Dec(|argv|)| + 2 + |EncodeMany(Strs(argv))|
  {
    if j > 0 {
      TotalIsExact(argv, j - 1);
      NextBulk(argv, j - 1);
    }
  }

  /** bulklen, a size_t, with its digit-counting loop: the length of an argument's bulk. */
  method BulkLength(len: nat) returns (n: nat)
    requires len <= ULLONG_MAX
    ensures n == BulkLen(len) % TWO64 && forall d :: |d| == len ==> n == |Bulk(d)| % TWO64
  {
    var c := CountDigits(len);
    n := (1 + c + 2 + len + 2) % TWO64;
    forall d | |d| == len ensures n == |Bulk(d)| % TWO64 {
      BulkIsLen(d);
    }
  }

  lemma BulkIsLen(d: bytes)
    ensures |Bulk(d)| == BulkLen(|d|)
  {
  }

  /** The total redisFormatCommandArgv computes, in an int. */
  method IntTotal(argv: seq<bytes>) returns (totlen: int)
    requires |argv| <= INT_MAX && forall i :: 0 <= i < |argv| ==> |argv[i]| <= ULLONG_MAX
    ensures totlen == ToInt(TotalLen(argv))
  {
    hide ToInt;
    var d := CountDigits(|argv|);
    totlen := ToInt(1 + d + 2);
    for j := 0 to |argv|
      invariant totlen == ToInt(1 + |Dec(|argv|)| + 2 + BulksLen(argv[..j]))
    {
      var n := BulkLength(|argv[j]|);
      assert argv[..j + 1][..j] == argv[..j];
      ToIntAdd(1 + |Dec(|argv|)| + 2 + BulksLen(argv[..j]), BulkLen(|argv[j]|));
      totlen := ToInt(totlen + n);
    }
    assert argv[..|argv|] == argv;
  }

  lemma Sum64(a: nat, b: nat)
    ensures (a % TWO64 + b % TWO64) % TWO64 == (a + b) % TWO64
  {
  }

  /** The total redisFormatSdsCommandArgv computes, in an unsigned long long. */
  method TotalLength(argv: seq<bytes>) returns (totlen: nat)
    requires |argv| <= INT_MAX && forall i :: 0 <= i < |argv| ==> |argv[i]| <= ULLONG_MAX
    ensures totlen == TotalLen(argv) % TWO64
  {
    hide Dec, Bulk;
    var d := CountDigits(|argv|);
    totlen := (1 + d + 2) % TWO64;
    for j := 0 to |argv|
      invariant totlen == (1 + |Dec(|argv|)| + 2 + BulksLen(argv[..j])) % TWO64
    {
      var n := BulkLength(|argv[j]|);
      assert argv[..j + 1][..j] == argv[..j];
      Sum64(1 + |Dec(|argv|)| + 2 + BulksLen(argv[..j]), BulkLen(|argv[j]|));
      totlen := (totlen + n) % TWO64;
    }
    assert argv[..|argv|] == argv;
  }

  /** sprintf or memcpy of data at pos. */
  method Put(cmd: array<byte>, pos: nat, data: bytes) returns (end: nat)
    requires pos + |data| <= cmd.Length
    modifies cmd
    ensures end == pos + |data| && cmd[..end] == old(cmd[..pos]) + data
  {
    forall i | 0 <= i < |data| {
      cmd[pos + i] := data[i];
    }
    end := pos + |data|;
    assert cmd[pos..end] == data;
    assert cmd[..pos] == old(cmd[..pos]);
    assert cmd[..end] == cmd[..pos] + cmd[pos..end];
  }

  /** One round of the writing loop: the length line, the argument, the closing line break. */
  method PutBulk(cmd: array<byte>, pos: nat, arg: bytes) returns (end: nat)
    requires pos + |Bulk(arg)| <= cmd.Length
    modifies cmd
    ensures end == pos + |Bulk(arg)| && cmd[..end] == old(cmd[..pos]) + Bulk(arg)
  {
    hide Dec;
    ghost var before := cmd[..pos];
    end := Put(cmd, pos, [DOLLAR] + Dec(|arg|) + CRLF);
    end := Put(cmd, end, arg);
    end := Put(cmd, end, CRLF);
    Associate(before, [DOLLAR] + Dec(|arg|) + CRLF, arg);
    Associate(before, [DOLLAR] + Dec(|arg|) + CRLF + arg, CRLF);
  }

  /** redisFormatCommandArgv: fills a buffer of the precomputed size and the final NUL, as far as the size is right.
      totlen + 1 is taken to wrap around where it leaves the int range. */
  method FormatCommandArgv(argv: seq<bytes>) returns (out: Formatted, ret: int, cmd: array<byte>)
    requires |argv| <= INT_MAX && forall i :: 0 <= i < |argv| ==> |argv[i]| <= ULLONG_MAX
    ensures out == Plain(argv) && fresh(cmd)
    ensures out.Done? ==> ret == |out.cmd| && cmd.Length == ret + 1 && cmd[..ret] == out.cmd && cmd[ret] == 0
    ensures out.NoBuffer? ==> ret == -1
  {
    hide Encode, EncodeMany, BulksLen, Dec, Bulk, Strs, ToInt;
    CommandParts(argv);
    TotalIsExact(argv, |argv|);
    assert argv[..|argv|] == argv;
    var totlen := IntTotal(argv);
    ToIntAdd(TotalLen(argv), 1);
    var size := ToInt(totlen + 1);
    if size < 0 {
      cmd := new byte[0];
      return NoBuffer, -1, cmd;
    }
    cmd := new byte[size];
    ghost var head := [STAR] + Dec(|argv|) + CRLF;
    if 1 + |Dec(|argv|)| + 2 > size {
      return TooSmall, totlen, cmd;
    }
    var pos := Put(cmd, 0, [STAR] + Dec(|argv|) + CRLF);
    NoBulks();
    assert argv[..0] == [] && head + [] == head;
    for j := 0 to |argv|
      invariant pos == |head| + BulksLen(argv[..j]) <= size
      invariant cmd[..pos] == head + EncodeMany(Strs(argv[..j]))
    {
      NextBulk(argv, j);
      Fits(argv, j + 1);
      if pos + |Bulk(argv[j])| > size {
        return TooSmall, totlen, cmd;
      }
      pos := PutBulk(cmd, pos, argv[j]);
      assert cmd[..pos] == head + (EncodeMany(Strs(argv[..j])) + Bulk(argv[j]));
    }
    if pos == size {
      return TooSmall, totlen, cmd;
    }
    ghost var whole := cmd[..pos];
    cmd[pos] := 0;
    assert cmd[..pos] == whole;
    return Done(cmd[..pos]), totlen, cmd;
  }

  /** redisFormatCommandArgv produces the command exactly when its length is below INT_MAX. */
  lemma PlainExact(argv: seq<bytes>)
    ensures Plain(argv) == Done(Command(argv)) <==> TotalLen(argv) < INT_MAX
    ensures Plain(argv).Done? ==> Plain(argv) == Done(Command(argv)) && |Command(argv)| == TotalLen(argv)
  {
    TotalIsExact(argv, |argv|);
    assert argv[..|argv|] == argv;
    hide Dec, BulksLen, Command;
  }

  lemma CommandParts(argv: seq<bytes>)
    ensures Command(argv) == [STAR] + Dec(|argv|) + CRLF + EncodeMany(Strs(argv))
  {
    hide EncodeMany, Dec, Strs;
  }

  lemma NoBulks()
    ensures EncodeMany(Strs([])) == [] && BulksLen([]) == 0
  {
  }

  lemma {:induction false} Fits(argv: seq<bytes>, j: nat)
    requires j <= |argv|
    ensures BulksLen(argv[..j]) <= BulksLen(argv)
    decreases |argv| - j
  {
    if j < |argv| {
      Fits(argv, j + 1);
      assert argv[..j + 1][..j] == argv[..j];
    } else {
      assert argv[..j] == argv;
    }
  }

  /** The reader gives the arguments back, whatever bytes they hold, and consumes exactly the command. */
  lemma CommandReadsBack(argv: seq<bytes>, rest: bytes)
    requires |argv| <= INT_MAX && forall i :: 0 <= i < |argv| ==> |argv[i]| <= LLONG_MAX
    ensures Parse(0, Command(argv) + rest) == Ok(Array(Strs(argv)), rest)
  {
    RoundTrip(Array(Strs(argv)), rest);
  }

  // ----- the sds variant -----

  /** A bulk as sdscatfmt writes it: "%u" takes the length as a 32-bit unsigned int. */
  function SdsBulk(d: bytes): bytes {
    [DOLLAR] + Dec(|d| % TWO32) + CRLF + d + CRLF
  }

  function SdsBulks(argv: seq<bytes>): bytes {
    if argv == [] then [] else SdsBulk(argv[0]) + SdsBulks(argv[1..])
  }

  lemma {:induction false} SdsBulksSnoc(argv: seq<bytes>, a: bytes)
    ensures SdsBulks(argv + [a]) == SdsBulks(argv) + SdsBulk(a)
  {
    if argv == [] {
      assert [a][1..] == [];
    } else {
      assert (argv + [a])[1..] == argv[1..] + [a];
      SdsBulksSnoc(argv[1..], a);
    }
  }

  function SdsCommand(argv: seq<bytes>): bytes {
    [STAR] + Dec(|argv|) + CRLF + SdsBulks(argv)
  }

  lemma NoSdsBulks()
    ensures SdsBulks([]) == []
  {
  }

  lemma SdsAppend(before: bytes, d: bytes)
    ensures before + ([DOLLAR] + Dec(|d| % TWO32) + CRLF) + d + CRLF == before + SdsBulk(d)
  {
    hide Dec;
    Associate(before, [DOLLAR] + Dec(|d| % TWO32) + CRLF, d);
    Associate(before, [DOLLAR] + Dec(|d| % TWO32) + CRLF + d, CRLF);
  }

  /** What becomes of redisFormatSdsCommandArgv: a command; a write at a position that does not fit the int sdscatfmt
      keeps it in; or a failure of the closing assertion on the length. */
  datatype Written = Built(cmd: bytes) | Misplaced | WrongLength

  /** Where the length line of argument j ends. */
  function LineEnd(argv: seq<bytes>, j: nat): nat
    requires j < |argv|
  {
    1 + |Dec(|argv|)| + 2 + |SdsBulks(argv[..j])| + 1 + |Dec(|argv[j]| % TWO32)| + 2
  }

  /** Every length line ends at a position an int can hold. */
  ghost predicate Placed(argv: seq<bytes>, n: nat)
    requires n <= |argv|
  {
    forall j :: 0 <= j < n ==> LineEnd(argv, j) <= INT_MAX
  }

  ghost function Sds(argv: seq<bytes>): Written {
    if !Placed(argv, |argv|) then Misplaced
    else if |SdsCommand(argv)| == TotalLen(argv) % TWO64 then Built(SdsCommand(argv)) else WrongLength
  }

  /** sdscatfmt for the formats "*%i\r\n" and "$%u\r\n": the position of the next byte to write is an int, which
      wraps around, and nothing good comes of writing anywhere but at the end of the string. */
  method SdsCatFmt(s: bytes, lead: byte, digits: bytes) returns (r: Option<bytes>)
    ensures r == if |s| + 1 + |digits| + 2 <= INT_MAX then Some(s + ([lead] + digits + CRLF)) else None
  {
    var i := ToInt(|s|);
    var pieces, out := [[lead], digits, [CR], [LF]], s;
    var k := 0;
    while k < 4 && i == |out|
      invariant k <= 4 && |out| == |s| + (if k < 2 then k else k - 1 + |digits|)
      invariant out == s + Concat(pieces[..k])
      invariant i == ToInt(|out|)
    {
      i := ToInt(i + |pieces[k]|);
      PieceOn(pieces, k);
      out := out + pieces[k];
      k := k + 1;
    }
    if i != |out| {
      return None;
    }
    FourPieces([lead], digits, [CR], [LF]);
    assert [CR] + [LF] == CRLF && pieces == pieces[..4];
    return Some(out);
  }

  /** redisFormatSdsCommandArgv; ret is its int result. */
  method FormatSdsCommandArgv(argv: seq<bytes>) returns (r: Written, ret: int)
    requires |argv| <= INT_MAX && forall i :: 0 <= i < |argv| ==> |argv[i]| <= ULLONG_MAX
    ensures r == Sds(argv)
    ensures r.Built? ==> ret == ToInt(|r.cmd|)
  {
    var totlen := TotalLength(argv);
    ret := ToInt(totlen);
    ShortHead(argv);
    hide Dec, SdsBulks, SdsBulk, ToInt;
    NoSdsBulks();
    ghost var head := [STAR] + Dec(|argv|) + CRLF;
    var line := SdsCatFmt([], STAR, Dec(|argv|));
    var cmd := line.value;
    assert cmd == head && argv[..0] == [] && argv[..|argv|] == argv;
    for j := 0 to |argv|
      invariant cmd == head + SdsBulks(argv[..j]) && Placed(argv, j)
    {
      ghost var before, sofar := cmd, SdsBulks(argv[..j]);
      line := SdsCatFmt(cmd, DOLLAR, Dec(|argv[j]| % TWO32));
      assert |cmd| + 1 + |Dec(|argv[j]| % TWO32)| + 2 == LineEnd(argv, j);
      if line == None {
        return Misplaced, ret;
      }
      cmd := line.value;
      cmd := cmd + argv[j];
      cmd := cmd + CRLF;
      SdsAppend(before, argv[j]);
      Associate(head, sofar, SdsBulk(argv[j]));
      assert argv[..j + 1] == argv[..j] + [argv[j]];
      SdsBulksSnoc(argv[..j], argv[j]);
    }
    r := if |cmd| == totlen then Built(cmd) else WrongLength;
  }

  lemma PieceOn(pieces: seq<bytes>, k: nat)
    requires k < |pieces|
    ensures Concat(pieces[..k + 1]) == Concat(pieces[..k]) + pieces[k]
  {
    assert pieces[..k + 1] == pieces[..k] + [pieces[k]];
    ConcatAppend(pieces[..k], [pieces[k]]);
    var one: seq<bytes> := [pieces[k]];
    assert one[1..] == [] && Concat(one[1..]) == [];
  }

  lemma FourPieces(a: bytes, b: bytes, c: bytes, d: bytes)
    ensures Concat([a, b, c, d][..4]) == a + b + (c + d)
  {
    var w: seq<bytes> := [a, b, c, d];
    assert w[..4] == w && w[1..] == [b, c, d] && w[1..][1..] == [c, d] && w[1..][1..][1..] == [d];
    assert |w[1..][1..][1..][1..]| == 0 && Concat(w[1..][1..][1..]) == d;
    assert Concat(w[1..][1..]) == c + d && Concat(w[1..]) == b + (c + d);
    Associate(a, b, c + d);
  }

  lemma ShortHead(argv: seq<bytes>)
    requires |argv| <= INT_MAX
    ensures 1 + |Dec(|argv|)| + 2 <= INT_MAX
  {
    Pow10Ten();
    DecLength(|argv|, 10, 10_000_000_000);
  }

  /** The bytes the sds variant is to write are the command's exactly when all arguments are shorter than 2^32 bytes. */
  lemma SdsAgrees(argv: seq<bytes>)
    ensures SdsCommand(argv) == Command(argv) <==> forall i :: 0 <= i < |argv| ==> |argv[i]| < TWO32
  {
    BulksAgree(argv);
    var head := [STAR] + Dec(|argv|) + CRLF;
    assert SdsCommand(argv) == head + SdsBulks(argv) && Command(argv) == head + EncodeMany(Strs(argv));
    assert SdsCommand(argv)[|head|..] == SdsBulks(argv) && Command(argv)[|head|..] == EncodeMany(Strs(argv));
  }

  lemma {:induction false} BulksAgree(argv: seq<bytes>)
    ensures SdsBulks(argv) == EncodeMany(Strs(argv)) <==> forall i :: 0 <= i < |argv| ==> |argv[i]| < TWO32
  {
    if argv != [] {
      var a, more := argv[0], argv[1..];
      BulksAgree(more);
      assert Strs(argv)[1..] == Strs(more) && Strs(argv)[0] == Str(a);
      var p, q := SdsBulks(more), EncodeMany(Strs(more));
      assert EncodeMany(Strs(argv)) == Encode(Strs(argv)[0]) + EncodeMany(Strs(argv)[1..]) == Bulk(a) + q;
      assert SdsBulks(argv) == SdsBulk(argv[0]) + SdsBulks(argv[1..]);
      BulkAgrees(a, p, q);
      hide SdsBulks, EncodeMany, Bulk, SdsBulk;
      assert forall i :: 0 <= i < |more| ==> more[i] == argv[i + 1];
      assert forall i :: 1 <= i < |argv| ==> argv[i] == more[i - 1];
    }
  }

  /** A longer length is announced differently. */
  lemma BulkAgrees(a: bytes, p: bytes, q: bytes)
    ensures SdsBulk(a) + p == Bulk(a) + q <==> |a| < TWO32 && p == q
  {
    var x, y := |a| % TWO32, |a|;
    if y < TWO32 {
      assert (Bulk(a) + p)[|Bulk(a)|..] == p && (Bulk(a) + q)[|Bulk(a)|..] == q;
    } else {
      assert SdsBulk(a) + p == [DOLLAR] + IntDec(x) + CRLF + (a + CRLF + p);
      assert Bulk(a) + q == [DOLLAR] + IntDec(y) + CRLF + (a + CRLF + q);
      HeadLine(DOLLAR, x, a + CRLF + p);
      HeadLine(DOLLAR, y, a + CRLF + q);
      hide Line, ParseInt, Dec, IntDec;
      if SdsBulk(a) + p == Bulk(a) + q {
        IntDecInjective(x, y);
        assert false;
      }
    }
  }

  /** redisFormatSdsCommandArgv produces the command exactly when the last length line ends within the int range and the
      last argument is shorter than 2^32 bytes; no other argument can then be long. */
  lemma SdsExact(argv: seq<bytes>)
    ensures Sds(argv) == Built(Command(argv))
            <==> argv == [] || (var last := |argv[|argv| - 1]|; TotalLen(argv) - last - 2 <= INT_MAX && last < TWO32)
  {
    SdsAgrees(argv);
    TotalIsExact(argv, |argv|);
    assert argv[..|argv|] == argv;
    if argv == [] {
      ShortHead(argv);
      hide Dec, Command, SdsCommand;
    } else {
      LastLine(argv);
    }
  }

  ghost predicate AllShort(argv: seq<bytes>) {
    forall i :: 0 <= i < |argv| ==> |argv[i]| < TWO32
  }

  lemma LastLine(argv: seq<bytes>)
    requires argv != [] && (SdsCommand(argv) == Command(argv) <==> AllShort(argv)) && |Command(argv)| == TotalLen(argv)
    ensures var last := |argv[|argv| - 1]|;
            Sds(argv) == Built(Command(argv)) <==> TotalLen(argv) - last - 2 <= INT_MAX && last < TWO32
  {
    hide Dec, Command, SdsCommand, BulksLen, SdsBulks, LineEnd, AllShort;
    var n := |argv| - 1;
    if AllShort(argv) {
      forall j | 0 <= j <= n ensures LineEnd(argv, j) <= LineEnd(argv, n) == TotalLen(argv) - |argv[n]| - 2 {
        LineEnds(argv, j);
      }
      LastShort(argv);
    } else if TotalLen(argv) - |argv[n]| - 2 <= INT_MAX && |argv[n]| < TWO32 {
      OthersShort(argv);
    }
  }

  lemma LastShort(argv: seq<bytes>)
    requires argv != [] && AllShort(argv)
    ensures |argv[|argv| - 1]| < TWO32
  {
  }

  /** Before the last argument, a long one would have pushed the last length line out of range. */
  lemma OthersShort(argv: seq<bytes>)
    requires argv != [] && TotalLen(argv) - |argv[|argv| - 1]| - 2 <= INT_MAX && |argv[|argv| - 1]| < TWO32
    ensures AllShort(argv)
  {
    var n := |argv| - 1;
    forall i | 0 <= i < n ensures |argv[i]| < TWO32 {
      ArgumentFits(argv[..n], i);
      assert argv[..n][i] == argv[i];
    }
    hide Dec;
  }

  lemma LineEnds(argv: seq<bytes>, j: nat)
    requires j < |argv| && AllShort(argv)
    ensures LineEnd(argv, j) <= LineEnd(argv, |argv| - 1) == TotalLen(argv) - |argv[|argv| - 1]| - 2
  {
    var n := |argv| - 1;
    LineAt(argv, j);
    LineAt(argv, n);
    assert argv[..n + 1] == argv && argv[..n + 1][..n] == argv[..n];
    hide Dec;
    if j < n {
      Fits(argv[..n], j + 1);
      assert argv[..n][..j + 1] == argv[..j + 1] && argv[..j + 1][..j] == argv[..j];
    }
  }

  lemma LineAt(argv: seq<bytes>, j: nat)
    requires j < |argv| && AllShort(argv)
    ensures LineEnd(argv, j) == 1 + |Dec(|argv|)| + 2 + BulksLen(argv[..j]) + 1 + |Dec(|argv[j]|)| + 2
  {
    hide Dec, SdsBulks, BulksLen, EncodeMany, Command;
    BulksAgree(argv[..j]);
    TotalIsExact(argv, j);
  }

  /** The two formatters agree, both producing the command, exactly when it is shorter than INT_MAX bytes. */
  lemma FormattersAgree(argv: seq<bytes>)
    ensures Plain(argv).Done? && Sds(argv) == Built(Plain(argv).cmd) <==> TotalLen(argv) < INT_MAX
  {
    PlainExact(argv);
    SdsExact(argv);
    if argv != [] {
      ArgumentFits(argv, |argv| - 1);
    }
    hide Dec, BulksLen, Command, SdsCommand, Sds;
  }

  lemma ArgumentFits(argv: seq<bytes>, i: nat)
    requires i < |argv|
    ensures |argv[i]| < BulksLen(argv)
  {
    Fits(argv, i + 1);
    assert argv[..i + 1][..i] == argv[..i];
  }

  /** One argument of 3 * 10^9 bytes: the sds variant writes the command, the other one fails. */
  lemma PlainRefuses(a: bytes)
    requires |a| == 3_000_000_000
    ensures Plain([a]) == NoBuffer && Sds([a]) == Built(Command([a]))
  {
    Pow10Ten();
    DecLength(|a|, 10, 10_000_000_000);
    assert |Dec(|a|)| <= 10;
    assert [a][..0] == [];
    NoBulks();
    SdsExact([a]);
    hide Dec, Command, Sds;
  }

  /** One more argument after it, of a single byte: the sds variant writes its length line out of place, although every
      argument is shorter than 2^32 bytes. */
  lemma SdsMisplaces(a: bytes, b: bytes)
    requires |a| == 3_000_000_000 && |b| == 1
    ensures Sds([a, b]) == Misplaced
  {
    var argv := [a, b];
    assert argv[..1] == [a] && [a][1..] == [] && SdsBulks([a]) == SdsBulk(a) + [];
    hide Dec;
    assert LineEnd(argv, 1) > INT_MAX;
  }

  /** An argument of 2^32 + 10^9 bytes passes the length assertion and is announced as 10^9 bytes. */
  lemma SdsTruncatesSilently(a: bytes)
    requires |a| == TWO32 + 1_000_000_000
    ensures Sds([a]) == Built(SdsCommand([a])) && SdsCommand([a]) != Command([a])
  {
    assert |Dec(1)| == 1;
    hide Dec, EncodeMany, Strs, Encode;
    SdsAgrees([a]);
    TenDigits(|a|);
    TenDigits(|a| % TWO32);
    assert [a][..0] == [] && [a][..1] == [a] && [a][1..] == [];
    TotalIsExact([a], 1);
    NextBulk([a], 0);
    NoBulks();
    NoSdsBulks();
    assert SdsBulks([a]) == SdsBulk(a) + [];
    hide SdsBulks, BulksLen;
    assert |SdsBulk(a)| == |Bulk(a)|;
  }

  lemma TenDigits(n: nat)
    requires 1_000_000_000 <= n < 10_000_000_000
    ensures |Dec(n)| == 10
  {
    Pow10Ten();
    DecLength(n, 10, 10_000_000_000);
    DecLength(n, 9, 1_000_000_000);
    hide Dec, Pow10;
  }

  lemma Pow10Ten()
    ensures Pow10(9) == 1_000_000_000 && Pow10(10) == 10_000_000_000
  {
    assert Pow10(4) == 10_000;
    assert Pow10(8) == 100_000_000;
  }
}
