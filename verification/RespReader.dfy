/** The resumable reply reader of hiredis' read.c: a byte buffer with a cursor and a nine-slot task stack. */
module RespReader {
  import opened Bytes
  import opened Decimal
  import opened RespGrammar

  // ----- the meaning of a half-finished read -----

  /** An array still being filled: how many elements it will have, and those it has. */
  datatype Frame = Frame(total: nat, done: seq<Reply>)

  ghost predicate GoodFrames(frames: seq<Frame>) {
    |frames| <= MAX_LEVEL && forall i :: 0 <= i < |frames| ==> |frames[i].done| < frames[i].total
  }

  /** With r as the next element of the innermost array, reads on until the outermost array is complete. */
  ghost function Climb(frames: seq<Frame>, r: Reply, s: bytes): Res<Reply>
    requires GoodFrames(frames)
  {
    if frames == [] then Ok(r, s)
    else
      var f := frames[|frames| - 1];
      match ParseMany(|frames|, f.total - |f.done| - 1, s)
      case Ok(rs, rest) => Climb(frames[..|frames| - 1], Array(f.done + [r] + rs), rest)
      case Need => Need
      case Bad(e) => Bad(e)
  }

  /** What reading on from open arrays yields, the next unread byte being an item's first. */
  ghost function Resume(frames: seq<Frame>, s: bytes): Res<Reply>
    requires GoodFrames(frames)
  {
    match Parse(|frames|, s)
    case Ok(r, rest) => Climb(frames, r, rest)
    case Need => Need
    case Bad(e) => Bad(e)
  }

  lemma {:induction false} ClimbExtend(frames: seq<Frame>, r: Reply, s: bytes, t: bytes)
    requires GoodFrames(frames) && !Climb(frames, r, s).Need?
    ensures Climb(frames, r, s + t) == Grow(Climb(frames, r, s), t)
  {
    hide ParseMany, Parse;
    if frames != [] {
      var f := frames[|frames| - 1];
      ParseManyExtend(|frames|, f.total - |f.done| - 1, s, t);
      var p := ParseMany(|frames|, f.total - |f.done| - 1, s);
      if p.Ok? {
        ClimbExtend(frames[..|frames| - 1], Array(f.done + [r] + p.value), p.rest, t);
      }
    }
  }

  /** Later bytes never change a reply or an error already determined. */
  lemma ResumeExtend(frames: seq<Frame>, s: bytes, t: bytes)
    requires GoodFrames(frames) && !Resume(frames, s).Need?
    ensures Resume(frames, s + t) == Grow(Resume(frames, s), t)
  {
    hide ParseMany, Parse, Climb;
    ParseExtend(|frames|, s, t);
    var p := Parse(|frames|, s);
    if p.Ok? {
      ClimbExtend(frames, p.value, p.rest, t);
    }
  }

  function Store(frames: seq<Frame>, r: Reply): seq<Frame>
    requires frames != []
  {
    var n := |frames| - 1;
    frames[n := frames[n].(done := frames[n].done + [r])]
  }

  lemma ClimbUnfold(frames: seq<Frame>, r: Reply, s: bytes)
    requires GoodFrames(frames) && frames != []
    ensures var f := frames[|frames| - 1];
            var p := ParseMany(|frames|, f.total - |f.done| - 1, s);
            Climb(frames, r, s) == if p.Ok? then Climb(frames[..|frames| - 1], Array(f.done + [r] + p.value), p.rest)
                                   else if p.Need? then Need else Bad(p.error)
  {
    hide ParseMany;
  }

  lemma ClimbTop(r: Reply)
    ensures forall s :: Climb([], r, s) == Ok(r, s)
  {
  }

  lemma ManyUnfold(level: nat, n: nat, s: bytes)
    requires n > 0
    ensures var p := Parse(level, s);
            if p.Ok? then
              var q := ParseMany(level, n - 1, p.rest);
              ParseMany(level, n, s) == if q.Ok? then Ok([p.value] + q.value, q.rest)
                                        else if q.Need? then Need else Bad(q.error)
            else ParseMany(level, n, s) == if p.Need? then Need else Bad(p.error)
  {
    hide Parse;
  }

  lemma ResumeUnfold(frames: seq<Frame>, s: bytes)
    requires GoodFrames(frames)
    ensures var p := Parse(|frames|, s);
            Resume(frames, s) == if p.Ok? then Climb(frames, p.value, p.rest) else if p.Need? then Need
                else Bad(p.error)
  {
    hide Parse, Climb;
  }

  /** The last element of an array: the array itself becomes the next element one level up. */
  lemma ClimbFull(frames: seq<Frame>, r: Reply, s: bytes)
    requires GoodFrames(frames) && frames != []
    requires var f := frames[|frames| - 1]; |f.done| + 1 == f.total
    ensures Climb(frames, r, s) == Climb(frames[..|frames| - 1], Array(frames[|frames| - 1].done + [r]), s)
  {
    var f := frames[|frames| - 1];
    assert f.done + [r] + [] == f.done + [r];
    ClimbUnfold(frames, r, s);
    hide Climb, Parse;
  }

  /** Any other element: it is stored, and the next item is due. */
  lemma ClimbNext(frames: seq<Frame>, r: Reply, s: bytes)
    requires GoodFrames(frames) && frames != []
    requires var f := frames[|frames| - 1]; |f.done| + 1 < f.total
    ensures GoodFrames(Store(frames, r)) && Climb(frames, r, s) == Resume(Store(frames, r), s)
  {
    hide Parse, ParseMany, Climb, Resume;
    var n, f, g := |frames| - 1, frames[|frames| - 1], Store(frames, r);
    assert g[..n] == frames[..n];
    ClimbUnfold(frames, r, s);
    ManyUnfold(|frames|, f.total - |f.done| - 1, s);
    ResumeUnfold(g, s);
    var p := Parse(|frames|, s);
    if p.Ok? {
      ClimbUnfold(g, p.value, p.rest);
      var q := ParseMany(|frames|, f.total - |f.done| - 2, p.rest);
      if q.Ok? {
        assert f.done + [r] + ([p.value] + q.value) == f.done + [r] + [p.value] + q.value;
      }
    }
  }

  /** A non-empty array header opens a frame. */
  lemma ResumeOpen(frames: seq<Frame>, s: bytes)
    requires GoodFrames(frames) && s != []
    requires ReadItem(|frames|, s[0], s[1..]).Open?
    ensures var i := ReadItem(|frames|, s[0], s[1..]);
            GoodFrames(frames + [Frame(i.count, [])])
            && Resume(frames, s) == Resume(frames + [Frame(i.count, [])], i.rest)
  {
    hide Parse, ParseMany, Climb, Resume, ReadItem;
    var i := ReadItem(|frames|, s[0], s[1..]);
    var g := frames + [Frame(i.count, [])];
    assert g[..|frames|] == frames;
    ResumeUnfold(frames, s);
    OpenUnfold(|frames|, s);
    ManyUnfold(|g|, i.count, i.rest);
    ResumeUnfold(g, i.rest);
    var p := Parse(|g|, i.rest);
    if p.Ok? {
      ClimbUnfold(g, p.value, p.rest);
      var q := ParseMany(|g|, i.count - 1, p.rest);
      if q.Ok? {
        assert [] + [p.value] + q.value == [p.value] + q.value;
      }
    }
  }

  lemma OpenUnfold(level: nat, s: bytes)
    requires s != [] && ReadItem(level, s[0], s[1..]).Open?
    ensures var i := ReadItem(level, s[0], s[1..]);
            var p := ParseMany(level + 1, i.count, i.rest);
            Parse(level, s) == if p.Ok? then Ok(Array(p.value), p.rest) else if p.Need? then Need else Bad(p.error)
  {
  }

  lemma LeafUnfold(frames: seq<Frame>, s: bytes)
    requires GoodFrames(frames) && s != []
    ensures var i := ReadItem(|frames|, s[0], s[1..]);
            && (i.Leaf? ==> Resume(frames, s) == Climb(frames, i.reply, i.rest))
            && (i.Short? ==> Resume(frames, s) == Need)
            && (i.Fault? ==> Resume(frames, s) == Bad(i.error))
  {
    hide Climb, ParseMany;
  }

  /** With r added to the open arrays, either the whole reply is there or the given arrays are open. */
  ghost predicate Climbs(frames: seq<Frame>, r: Reply, done: Option<Reply>, frames': seq<Frame>)
    requires GoodFrames(frames) && GoodFrames(frames')
  {
    forall t :: Climb(frames, r, t) == if done.Some? then Ok(done.value, t) else Resume(frames', t)
  }

  /** Whatever follows, reading on from p has the reply done and leaves p', or is reading on from p'. */
  ghost predicate Reads(frames: seq<Frame>, p: bytes, done: Option<Reply>, frames': seq<Frame>, p': bytes)
    requires GoodFrames(frames) && GoodFrames(frames')
  {
    forall t :: Resume(frames, p + t) == if done.Some? then Ok(done.value, p' + t) else Resume(frames', p' + t)
  }

  lemma ReadsItself(f: seq<Frame>, p: bytes)
    requires GoodFrames(f)
    ensures Reads(f, p, None, f, p)
  {
  }

  lemma ReadsOn(f: seq<Frame>, p: bytes, f1: seq<Frame>, p1: bytes, done: Option<Reply>, f2: seq<Frame>, p2: bytes)
    requires GoodFrames(f) && GoodFrames(f1) && GoodFrames(f2)
    requires Reads(f, p, None, f1, p1) && Reads(f1, p1, done, f2, p2)
    ensures Reads(f, p, done, f2, p2)
  {
    hide Resume;
    forall t
      ensures Resume(f, p + t) == if done.Some? then Ok(done.value, p2 + t) else Resume(f2, p2 + t)
    {
      assert Resume(f, p + t) == Resume(f1, p1 + t);
    }
  }

  lemma ReadsNow(f: seq<Frame>, p: bytes, done: Option<Reply>, f': seq<Frame>, p': bytes)
    requires GoodFrames(f) && GoodFrames(f') && Reads(f, p, done, f', p')
    ensures Resume(f, p) == if done.Some? then Ok(done.value, p') else Resume(f', p')
  {
    assert p + [] == p && p' + [] == p';
    assert Resume(f, p + []) == if done.Some? then Ok(done.value, p' + []) else Resume(f', p' + []);
  }

  // ----- reader states and runs -----

  /** A reader between calls: its error, the arrays still open, and the bytes of the item in
      progress followed by everything unread. */
  datatype State = State(err: Option<Err>, frames: seq<Frame>, pending: bytes)

  const START := State(None, [], [])

  /** What one call of redisReaderGetReply hands out. */
  datatype Answer = Answer(reply: Option<Reply>, failed: bool)

  ghost predicate GoodState(s: State) {
    GoodFrames(s.frames) && (s.err.Some? ==> s.frames == [] && s.pending == [])
  }

  /** redisReaderFeed: a reader in an erroneous state takes no more input. */
  function FeedState(s: State, chunk: bytes): State {
    if s.err.Some? then s else s.(pending := s.pending + chunk)
  }

  /** redisReaderGetReply, by what it makes of the input: the next reply if it is complete, the error
      if there is one, otherwise a state from which any further input reads the same as before. */
  ghost predicate GetStep(s: State, a: Answer, s': State)
    requires GoodState(s)
  {
    && GoodState(s')
    && if s.err.Some? then s' == s && a == Answer(None, true)
       else
         var r := Resume(s.frames, s.pending);
         if r.Ok? then s' == State(None, [], r.rest) && a == Answer(Some(r.value), false)
         else if r.Bad? then s' == State(Some(r.error), [], []) && a == Answer(None, true)
         else a == Answer(None, false) && s'.err == None
              && forall t :: Resume(s'.frames, s'.pending + t) == Resume(s.frames, s.pending + t)
  }

  /** All that a state says about its input followed by t. */
  ghost function Says(s: State, t: bytes): Stream
    requires GoodState(s)
  {
    if s.err.Some? then Stream([], Failed(s.err.value))
    else match Resume(s.frames, s.pending + t)
      case Ok(r, rest) => Prepend([r], StreamOf(rest))
      case Need => Stream([], Waiting)
      case Bad(e) => Stream([], Failed(e))
  }

  /** One call on a reader. */
  datatype Call = Feed(chunk: bytes) | Get(answer: Answer)

  ghost predicate CallStep(s: State, c: Call, s': State)
    requires GoodState(s)
  {
    match c
    case Feed(chunk) => s' == FeedState(s, chunk)
    case Get(a) => GetStep(s, a, s')
  }

  /** A run: any calls in any order, states[i] before calls[i]. */
  ghost predicate Run(states: seq<State>, calls: seq<Call>) {
    |states| == |calls| + 1
    && (forall i :: 0 <= i < |states| ==> GoodState(states[i]))
    && forall i :: 0 <= i < |calls| ==> CallStep(states[i], calls[i], states[i + 1])
  }

  function Fed(calls: seq<Call>): bytes {
    if calls == [] then []
    else Fed(calls[..|calls| - 1]) + (var c := calls[|calls| - 1]; if c.Feed? then c.chunk else [])
  }

  function Emitted(calls: seq<Call>): seq<Reply> {
    if calls == [] then []
    else Emitted(calls[..|calls| - 1])
         + (var c := calls[|calls| - 1]; if c.Get? && c.answer.reply.Some? then [c.answer.reply.value] else [])
  }

  lemma FreshResume(s: bytes)
    ensures Resume([], s) == Parse(0, s)
  {
    hide Parse;
  }

  lemma FreshSays(s: bytes, t: bytes)
    ensures Says(State(None, [], s), t) == StreamOf(s + t)
  {
    hide Parse;
    FreshResume(s + t);
  }

  /** A call never changes what the input so far, continued by any t, says. */
  lemma CallKeepsMeaning(s: State, c: Call, s': State, t: bytes)
    requires GoodState(s) && GoodState(s') && CallStep(s, c, s')
    ensures Says(s, Fed([c]) + t) == Prepend(Emitted([c]), Says(s', t))
  {
    hide Parse, StreamOf, Resume;
    assert [c][..0] == [];
    match c
    case Feed(chunk) =>
      assert s.pending + ([] + chunk + t) == s.pending + chunk + t;
    case Get(a) =>
      assert [] + [] + t == t;
      if s.err.None? {
        if !Resume(s.frames, s.pending).Need? {
          ResumeExtend(s.frames, s.pending, t);
        }
        match Resume(s.frames, s.pending)
        case Ok(r, rest) => FreshSays(rest, t);
        case _ =>
      }
  }

  lemma RunPrefix(states: seq<State>, calls: seq<Call>)
    requires Run(states, calls) && calls != []
    ensures var n := |calls| - 1;
            |states| == n + 2 && Run(states[..n + 1], calls[..n])
            && GoodState(states[n]) && GoodState(states[n + 1]) && CallStep(states[n], calls[n], states[n + 1])
  {
    hide CallStep, GoodState;
  }

  lemma SnocCall(calls: seq<Call>)
    requires calls != []
    ensures var n := |calls| - 1;
            Fed(calls) == Fed(calls[..n]) + Fed([calls[n]])
               && Emitted(calls) == Emitted(calls[..n]) + Emitted([calls[n]])
  {
    assert [calls[|calls| - 1]][..0] == [];
  }

  lemma PrependNone(s: Stream)
    ensures Prepend([], s) == s
  {
  }

  lemma PrependTwice(a: seq<Reply>, b: seq<Reply>, s: Stream)
    ensures Prepend(a, Prepend(b, s)) == Prepend(a + b, s)
  {
    assert a + (b + s.replies) == a + b + s.replies;
  }

  /** Conservation over whole runs: the replies handed out so far, followed by what the reader's state
      says, are always the reading of all bytes fed so far (and of any continuation t). */
  lemma {:induction false} RunConserves(states: seq<State>, calls: seq<Call>, t: bytes)
    requires Run(states, calls) && states[0] == START
    ensures StreamOf(Fed(calls) + t) == Prepend(Emitted(calls), Says(states[|calls|], t))
    decreases |calls|
  {
    hide Parse, Resume, Says, CallStep, StreamOf, Prepend;
    if calls == [] {
      FreshSays([], t);
      PrependNone(StreamOf([] + t));
    } else {
      hide Run;
      var n := |calls| - 1;
      var u := Fed([calls[n]]) + t;
      SnocCall(calls);
      RunPrefix(states, calls);
      RunConserves(states[..n + 1], calls[..n], u);
      CallKeepsMeaning(states[n], calls[n], states[n + 1], t);
      assert Fed(calls) + t == Fed(calls[..n]) + u;
      PrependTwice(Emitted(calls[..n]), Emitted([calls[n]]), Says(states[n + 1], t));
    }
  }

  /** A run ends drained when its last call asked for a reply and got none. */
  predicate Drained(calls: seq<Call>) {
    calls != [] && (var c := calls[|calls| - 1]; c.Get? && c.answer.reply.None?)
  }

  /** A drained run has handed out exactly the replies of its input, and has failed exactly when
      the input has a protocol error after them. */
  lemma DrainedRunReadsAll(states: seq<State>, calls: seq<Call>)
    requires Run(states, calls) && states[0] == START && Drained(calls)
    ensures var s := states[|calls|];
            StreamOf(Fed(calls)) == Stream(Emitted(calls), if s.err.Some? then Failed(s.err.value) else Waiting)
  {
    var n := |calls| - 1;
    var s := states[n + 1];
    RunConserves(states, calls, []);
    assert Fed(calls) + [] == Fed(calls);
    assert CallStep(states[n], calls[n], s);
    hide Parse, StreamOf, Resume;
    if s.err.None? {
      assert states[n].pending + [] == states[n].pending;
      assert Resume(s.frames, s.pending + []) == Resume(states[n].frames, states[n].pending + []);
    }
    assert Says(s, []).replies == [];
    assert Emitted(calls) + [] == Emitted(calls);
  }

  /** How the input was cut into chunks, and when replies were asked for in between, never matters. */
  lemma ChunkingNeverMatters(states1: seq<State>, calls1: seq<Call>, states2: seq<State>, calls2: seq<Call>)
    requires Run(states1, calls1) && states1[0] == START && Drained(calls1)
    requires Run(states2, calls2) && states2[0] == START && Drained(calls2)
    requires Fed(calls1) == Fed(calls2)
    ensures Emitted(calls1) == Emitted(calls2)
    ensures states1[|calls1|].err == states2[|calls2|].err
  {
    hide StreamOf;
    DrainedRunReadsAll(states1, calls1);
    DrainedRunReadsAll(states2, calls2);
  }

  // ----- the reader itself -----

  const NO_TYPE := -1

  /** redisReadTask; obj holds the elements stored so far in its array object. */
  datatype Task = Task(typ: int, elements: int, idx: int, obj: seq<Reply>)

  class Reader {
    var err: Option<Err>
    var buf: bytes
    var pos: nat
    var len: nat
    const rstack: array<Task>
    var ridx: int
    var reply: Option<Reply>

    ghost predicate Valid()
      reads this, rstack
    {
      && rstack.Length == MAX_LEVEL + 1
      && pos <= len == |buf|
      && -1 <= ridx <= MAX_LEVEL
      && (err.Some? ==> ridx == -1 && len == 0)
      && (forall i :: 0 <= i < ridx ==>
            rstack[i].typ == STAR && rstack[i + 1].idx == |rstack[i].obj| < rstack[i].elements)
      && (ridx >= 0 ==> rstack[ridx].typ == NO_TYPE || rstack[ridx].typ in {MINUS, PLUS, COLON, DOLLAR, STAR})
    }

    /** The open arrays: every task below the current one. */
    ghost function Frames(): (f: seq<Frame>)
      reads this, rstack
      requires Valid()
      ensures GoodFrames(f)
    {
      if ridx < 0 then [] else seq(ridx, i requires 0 <= i < ridx && Valid() reads this, rstack =>
                                         Frame(rstack[i].elements, rstack[i].obj))
    }

    /** The current item's type byte, if it has been read, and the unread bytes. */
    ghost function Pending(): bytes
      reads this, rstack
      requires Valid()
    {
      (if ridx >= 0 && rstack[ridx].typ != NO_TYPE then [rstack[ridx].typ] else []) + buf[pos..]
    }

    /** The finished reply, once the stack is empty. */
    ghost function Done(): Option<Reply>
      reads this
    {
      if ridx == -1 then reply else None
    }

    ghost function Abs(): (s: State)
      reads this, rstack
      requires Valid()
      ensures GoodState(s)
    {
      State(err, Frames(), Pending())
    }

    /** redisReaderCreate */
    constructor ()
      ensures Valid() && Rested() && fresh(rstack) && Abs() == START
    {
      err, buf, pos, len, ridx, reply := None, [], 0, 0, -1, None;
      rstack := new Task[MAX_LEVEL + 1](_ => Task(NO_TYPE, -1, 0, []));
    }

    /** __redisReaderSetError */
    method SetError(e: Err)
      requires Valid()
      modifies this
      ensures Valid() && Abs() == State(Some(e), [], [])
    {
      reply := None;
      buf, pos, len := [], 0, 0;
      ridx := -1;
      err := Some(e);
    }

    /** redisReaderFeed */
    method FeedBytes(chunk: bytes) returns (ok: bool)
      requires Valid()
      modifies this
      ensures Valid() && Abs() == FeedState(old(Abs()), chunk) && ok == old(err).None?
      ensures old(Rested()) ==> Rested()
    {
      if err.Some? {
        return false;
      }
      ghost var unread := buf[pos..];
      buf := buf + chunk;
      len := |buf|;
      assert buf[pos..] == unread + chunk;
      assert Pending() == old(Pending()) + chunk;
      return true;
    }

    /** seekNewline: the nested scanning loops over the unread bytes s. */
    static method SeekNewline(s: bytes) returns (r: Option<nat>)
      ensures r == if Line(s).Ok? then Some(|Line(s).value|) else None
    {
      var p := 0;
      var last := |s| - 1;
      while p < last
        invariant 0 <= p && (p <= last || last < 0)
        invariant forall j: nat :: j < p ==> !CrlfAt(s, j)
      {
        while p < last && s[p] != CR
          invariant 0 <= p <= last
          invariant forall j: nat :: j < p ==> !CrlfAt(s, j)
        {
          p := p + 1;
        }
        if p == last {
          return None;
        }
        if s[p + 1] == LF {
          LineIs(s, p);
          return Some(p);
        }
        p := p + 1;
      }
      return None;
    }

    /** readLine: the line at the cursor, which moves past its CRLF. */
    method ReadLine() returns (l: Option<bytes>)
      requires Valid()
      modifies this
      ensures Valid() && unchanged(this`err, this`buf, this`len, this`ridx, this`reply)
      ensures var r := Line(old(buf[pos..]));
              if r.Ok? then l == Some(r.value) && buf[pos..] == r.rest else l == None && pos == old(pos)
    {
      hide Line;
      var s := SeekNewline(buf[pos..]);
      if s.None? {
        return None;
      }
      LineCut(buf, pos);
      l := Some(buf[pos..pos + s.value]);
      pos := pos + s.value + 2;
    }

    /** moveToNextTask, with the finished item r put where it belongs: in the innermost open array,
        a filled array in the one around it, and the outermost item in reply. */
    method MoveToNextTask(r: Reply)
      requires Valid() && ridx >= 0 && err.None?
      modifies this, rstack
      ensures Valid() && unchanged(this`err, this`buf, this`pos, this`len)
      ensures ridx == -1 ==> reply.Some?
      ensures ridx >= 0 ==> rstack[ridx].typ == NO_TYPE
      ensures Climbs(old(Frames()), r, Done(), Frames())
    {
      hide Climb, Resume;
      var item := r;
      while ridx >= 0
        invariant Valid() && ridx >= 0
        invariant unchanged(this`err, this`buf, this`pos, this`len)
        invariant forall t :: old(Climb(Frames(), r, t)) == Climb(Frames(), item, t)
        decreases ridx
      {
        if ridx == 0 {
          ClimbTop(item);
          reply := Some(item);
          ridx := ridx - 1;
          return;
        }
        ghost var frames := Frames();
        var prv := rstack[ridx - 1];
        if rstack[ridx].idx == prv.elements - 1 {
          forall t ensures Climb(frames, item, t) == Climb(frames[..|frames| - 1], Array(prv.obj + [item]), t) {
            ClimbFull(frames, item, t);
          }
          ridx := ridx - 1;
          item := Array(prv.obj + [item]);
          assert Frames() == frames[..|frames| - 1];
        } else {
          forall t ensures GoodFrames(Store(frames, item)) && Climb(frames, item, t) == Resume(Store(frames, item), t) {
            ClimbNext(frames, item, t);
          }
          rstack[ridx - 1] := prv.(obj := prv.obj + [item]);
          rstack[ridx] := rstack[ridx].(typ := NO_TYPE, elements := -1, idx := rstack[ridx].idx + 1);
          assert Frames() == Store(frames, item);
          return;
        }
      }
    }

    /** processLineItem */
    method ProcessLineItem() returns (ok: bool)
      requires Valid() && err.None? && ridx >= 0 && rstack[ridx].typ in {MINUS, PLUS, COLON}
      modifies this, rstack
      ensures ItemDone(old(Frames()), old(rstack[ridx].typ), old(buf[pos..]), ok)
    {
      hide Climb, Resume, Line, ParseInt, ReadItem, Climbs, Denotes;
      ghost var frames := Frames();
      var t := rstack[ridx].typ;
      LineCases(ridx, t, buf[pos..]);
      var l := ReadLine();
      if l.None? {
        return false;
      }
      var item;
      if t == COLON {
        var v := String2ll(l.value);
        if v.None? {
          SetError(BadInteger);
          return false;
        }
        item := Integer(v.value);
      } else {
        item := if t == PLUS then Status(l.value) else Error(l.value);
      }
      assert Frames() == frames;
      MoveToNextTask(item);
      return true;
    }

    /** The scanning part of processBulkItem, over the unread bytes s: the object and the bytes it
        takes, unless bytes are missing or the length is wrong. */
    static method ScanBulk(s: bytes) returns (bytelen: nat, obj: Option<Reply>, error: Option<Err>)
      ensures forall level: nat ::
                ReadItem(level, DOLLAR, s) == if error.Some? then Fault(error.value)
                                              else if obj.None? then Short
                                              else if bytelen <= |s| then Leaf(obj.value, s[bytelen..]) else Short
      ensures error.None? && obj.Some? ==> bytelen <= |s|
    {
      hide Line, ParseInt, ReadItem, Denotes;
      bytelen, obj, error := 0, None, None;
      var n := SeekNewline(s);
      if n.None? {
        forall level: nat ensures ReadItem(level, DOLLAR, s) == Short {
          BulkShort(level, s);
        }
        return;
      }
      forall level: nat ensures BulkIs(s, ReadItem(level, DOLLAR, s)) {
        BulkCases(level, s);
      }
      bytelen := n.value + 2;
      LineCut(s, 0);
      var len := String2ll(s[0..n.value]);
      if len.None? {
        error := Some(BadBulkLength);
      } else if len.value < -1 {
        error := Some(BulkOutOfRange);
      } else if len.value == -1 {
        obj := Some(Nil);
      } else {
        bytelen := bytelen + len.value + 2;
        if bytelen <= |s| {
          BodyCut(s, n.value + 2, len.value);
          obj := Some(Str(s[n.value + 2..][..len.value]));
        }
      }
    }

    /** processBulkItem */
    method ProcessBulkItem() returns (ok: bool)
      requires Valid() && err.None? && ridx >= 0 && rstack[ridx].typ == DOLLAR
      modifies this, rstack
      ensures ItemDone(old(Frames()), DOLLAR, old(buf[pos..]), ok)
    {
      hide Climb, Resume, ReadItem, Climbs;
      var bytelen, obj, error := ScanBulk(buf[pos..]);
      if error.Some? {
        SetError(error.value);
        return false;
      }
      if obj.None? {
        return false;
      }
      assert buf[pos..][bytelen..] == buf[pos + bytelen..];
      Finish(obj.value, bytelen);
      return true;
    }

    /** Consumes the n bytes of a finished item and puts it in place. */
    method Finish(item: Reply, n: nat)
      requires Valid() && err.None? && ridx >= 0 && n <= len - pos
      modifies this, rstack
      ensures Valid() && unchanged(this`err, this`buf, this`len) && pos == old(pos) + n
      ensures ridx == -1 ==> reply.Some?
      ensures ridx >= 0 ==> rstack[ridx].typ == NO_TYPE
      ensures Climbs(old(Frames()), item, Done(), Frames())
    {
      hide Climbs;
      ghost var frames := Frames();
      pos := pos + n;
      assert Frames() == frames;
      MoveToNextTask(item);
    }

    /** The current task becomes an open array of n elements, and its first element the current task. */
    method PushTask(n: nat)
      requires Valid() && err.None? && 0 <= ridx < MAX_LEVEL && rstack[ridx].typ == STAR && n > 0
      modifies this`ridx, rstack
      ensures Valid() && ridx == old(ridx) + 1 && rstack[ridx].typ == NO_TYPE
      ensures Frames() == old(Frames()) + [Frame(n, [])]
    {
      rstack[ridx] := rstack[ridx].(elements := n, obj := []);
      ridx := ridx + 1;
      rstack[ridx] := Task(NO_TYPE, -1, 0, []);
    }

    /** processMultiBulkItem */
    method ProcessMultiBulkItem() returns (ok: bool)
      requires Valid() && err.None? && ridx >= 0 && rstack[ridx].typ == STAR
      modifies this, rstack
      ensures ItemDone(old(Frames()), STAR, old(buf[pos..]), ok)
    {
      hide Climb, Resume, Line, ParseInt, ReadItem, Climbs, Denotes;
      ghost var frames := Frames();
      MultiCases(ridx, buf[pos..]);
      if ridx == MAX_LEVEL {
        SetError(TooDeep);
        return false;
      }
      var l := ReadLine();
      if l.None? {
        return false;
      }
      var elements := String2ll(l.value);
      if elements.None? {
        SetError(BadMultiLength);
        return false;
      }
      if elements.value < -1 || elements.value > INT_MAX {
        SetError(MultiOutOfRange);
        return false;
      }
      assert Frames() == frames;
      StartArray(elements.value);
      return true;
    }

    /** The last part of processMultiBulkItem: a nil, an open array, or an empty one. */
    method StartArray(elements: int)
      requires Valid() && err.None? && 0 <= ridx < MAX_LEVEL && rstack[ridx].typ == STAR && elements >= -1
      modifies this, rstack
      ensures Valid() && unchanged(this`err, this`buf, this`pos, this`len)
      ensures ridx == -1 ==> reply.Some?
      ensures ridx >= 0 ==> rstack[ridx].typ == NO_TYPE
      ensures elements > 0 ==> ridx >= 0 && Frames() == old(Frames()) + [Frame(elements, [])]
      ensures elements <= 0 ==>
                Climbs(old(Frames()), if elements == 0 then Array([]) else Nil, Done(), Frames())
    {
      hide Climb, Resume;
      if elements == -1 {
        MoveToNextTask(Nil);
      } else if elements > 0 {
        PushTask(elements);
      } else {
        MoveToNextTask(Array([]));
      }
    }

    /** What processing one typed item may do to the reader, the item's type and the bytes s after it
        given: finish an item or open an array, wait, or fail. */
    ghost predicate ItemDone(frames: seq<Frame>, typ: byte, s: bytes, ok: bool)
      reads this, rstack
      requires GoodFrames(frames)
    {
      && Valid()
      && var i := ReadItem(|frames|, typ, s);
         && (i.Leaf? ==>
               && ok && err.None? && buf[pos..] == i.rest
               && (ridx >= 0 ==> rstack[ridx].typ == NO_TYPE) && (ridx == -1 ==> reply.Some?)
               && Climbs(frames, i.reply, Done(), Frames()))
         && (i.Open? ==>
               && ok && err.None? && buf[pos..] == i.rest && ridx >= 0 && rstack[ridx].typ == NO_TYPE
               && Frames() == frames + [Frame(i.count, [])])
         && (i.Short? ==>
               && !ok && err.None? && buf[pos..] == s && ridx >= 0 && rstack[ridx].typ == typ && Frames() == frames)
         && (i.Fault? ==> !ok && Abs() == State(Some(i.error), [], []))
    }

    /** Between calls an item whose type has been read is one that still lacks bytes. */
    ghost predicate Rested()
      reads this, rstack
      requires Valid()
    {
      ridx == MAX_LEVEL ==> rstack[ridx].typ != STAR
    }

    /** processItem: reads the type byte if it is due, then the item. */
    method ProcessItem() returns (ok: bool)
      requires Valid() && err.None? && ridx >= 0
      modifies this, rstack
      ensures Valid()
      ensures var p := old(Pending());
              if p == [] then !ok && err.None? && ridx >= 0 && Frames() == old(Frames()) && Pending() == []
                              && rstack[ridx].typ == NO_TYPE
              else ItemDone(old(Frames()), p[0], p[1..], ok)
    {
      hide Climb, Resume, Line, ParseInt, ReadItem;
      ghost var frames, p := Frames(), Pending();
      if rstack[ridx].typ < 0 {
        if len - pos < 1 {
          return false;
        }
        var b := buf[pos];
        pos := pos + 1;
        assert p == [b] + buf[pos..];
        if b !in {MINUS, PLUS, COLON, DOLLAR, STAR} {
          FaultyType(|frames|, b, buf[pos..]);
          SetError(BadType(b));
          return false;
        }
        rstack[ridx] := rstack[ridx].(typ := b);
        assert Frames() == frames;
      }
      if rstack[ridx].typ == DOLLAR {
        ok := ProcessBulkItem();
      } else if rstack[ridx].typ == STAR {
        ok := ProcessMultiBulkItem();
      } else {
        ok := ProcessLineItem();
      }
    }

    /** Drops the bytes already consumed once there are 1024 of them. */
    method Discard()
      requires Valid() && err.None?
      modifies this`buf, this`pos, this`len
      ensures Valid() && Frames() == old(Frames()) && Pending() == old(Pending()) && buf[pos..] == old(buf[pos..])
    {
      if pos >= 1024 {
        ghost var unread := buf[pos..];
        buf := SdsRange(buf, pos, -1);
        pos := 0;
        len := |buf|;
        assert buf[pos..] == unread;
      }
    }

    /** processItem seen from the reply it is part of: reading on, or the reply's fate is decided. */
    method Advance() returns (ok: bool)
      requires Valid() && Rested() && err.None? && ridx >= 0
      modifies this, rstack
      ensures Valid() && Rested()
      ensures ok ==> err.None? && (ridx == -1 ==> reply.Some?)
                     && Reads(old(Frames()), old(Pending()), Done(), Frames(), Pending())
                     && |Pending()| < |old(Pending())|
      ensures !ok && err.None? ==> ridx >= 0 && Frames() == old(Frames()) && Pending() == old(Pending())
                                   && Resume(Frames(), Pending()) == Need
      ensures !ok && err.Some? ==> Abs() == State(err, [], [])
                                   && Resume(old(Frames()), old(Pending())) == Bad(err.value)
    {
      hide Climb, Resume, Line, ParseInt, ReadItem, Reads, Climbs;
      ghost var f, p := Frames(), Pending();
      StuckItem(f, p);
      ok := ProcessItem();
      if ok {
        assert Pending() == [] + buf[pos..] == buf[pos..];
        ItemStep(f, p, Done(), Frames());
      } else {
        assert p != [] ==> [p[0]] + p[1..] == p;
      }
    }

    /** The loop of redisReaderGetReply: items until the stack is empty or an item is stuck. */
    method ProcessItems()
      requires Valid() && Rested() && err.None? && ridx >= 0
      modifies this, rstack
      ensures Valid() && Rested()
      ensures err.Some? ==> Abs() == State(err, [], [])
                            && Resume(old(Frames()), old(Pending())) == Bad(err.value)
      ensures err.None? ==> (ridx == -1 ==> reply.Some?)
                            && Reads(old(Frames()), old(Pending()), Done(), Frames(), Pending())
                            && (ridx >= 0 ==> Resume(Frames(), Pending()) == Need)
    {
      hide Climb, Resume, Line, ParseInt, ReadItem;
      ghost var frames, pending := Frames(), Pending();
      ReadsItself(frames, pending);
      hide Reads, Climbs;
      while ridx >= 0
        invariant Valid() && err.None? && Rested()
        invariant ridx == -1 ==> reply.Some?
        invariant Reads(frames, pending, Done(), Frames(), Pending())
        decreases ridx >= 0, |Pending()|
      {
        ghost var f, p := Frames(), Pending();
        ReadsNow(frames, pending, None, f, p);
        var ok := Advance();
        if !ok {
          return;
        }
        ReadsOn(frames, pending, f, p, Done(), Frames(), Pending());
      }
    }

    /** Sets the first item to process when the stack is empty. */
    method PrepareStack()
      requires Valid() && Rested() && err.None?
      modifies this`ridx, rstack
      ensures Valid() && Rested() && ridx >= 0
      ensures Frames() == old(Frames()) && Pending() == old(Pending())
    {
      if ridx == -1 {
        rstack[0] := Task(NO_TYPE, -1, -1, []);
        ridx := 0;
      }
    }

    /** Hands out the reply when there is one. */
    method TakeReply() returns (a: Answer)
      requires Valid() && Rested() && err.None? && (ridx == -1 ==> reply.Some?)
      modifies this`reply
      ensures Valid() && Rested() && a == Answer(old(Done()), false)
      ensures Frames() == old(Frames()) && Pending() == old(Pending())
    {
      a := Answer(None, false);
      if ridx == -1 {
        a := Answer(reply, false);
        reply := None;
      }
    }

    /** redisReaderGetReply */
    method GetReply() returns (a: Answer)
      requires Valid() && Rested()
      modifies this, rstack
      ensures Valid() && Rested() && GetStep(old(Abs()), a, Abs())
    {
      hide Climb, Resume, Line, ParseInt, ReadItem, Reads, GetStep;
      ghost var s := Abs();
      if err.Some? {
        GetFailed(s, s);
        return Answer(None, true);
      }
      if len == 0 {
        NothingToRead(s.frames, s.pending);
        ReadsItself(s.frames, s.pending);
        GetDecided(s, None, s);
        return Answer(None, false);
      }
      PrepareStack();
      ProcessItems();
      if err.Some? {
        GetFailed(s, Abs());
        return Answer(None, true);
      }
      Discard();
      GetDecided(s, Done(), Abs());
      a := TakeReply();
    }
  }

  lemma GetFailed(s: State, s': State)
    requires GoodState(s) && s'.err.Some? && s' == State(s'.err, [], [])
    requires if s.err.Some? then s' == s else Resume(s.frames, s.pending) == Bad(s'.err.value)
    ensures GetStep(s, Answer(None, true), s')
  {
    hide Resume;
  }

  lemma GetDecided(s: State, done: Option<Reply>, s': State)
    requires GoodState(s) && GoodState(s') && s.err == s'.err == None
    requires Reads(s.frames, s.pending, done, s'.frames, s'.pending)
    requires if done.Some? then s'.frames == [] else Resume(s'.frames, s'.pending) == Need
    ensures GetStep(s, Answer(done, false), s')
  {
    hide Resume;
    ReadsNow(s.frames, s.pending, done, s'.frames, s'.pending);
    forall t | done.None? ensures Resume(s'.frames, s'.pending + t) == Resume(s.frames, s.pending + t) {
      assert Resume(s.frames, s.pending + t) == Resume(s'.frames, s'.pending + t);
    }
  }

  lemma LineCut(buf: bytes, pos: nat)
    requires pos <= |buf| && Line(buf[pos..]).Ok?
    ensures var r := Line(buf[pos..]);
            var to := pos + |r.value|;
            to + 2 <= |buf| && buf[pos..to] == r.value && buf[to + 2..] == r.rest
  {
    var s, r := buf[pos..], Line(buf[pos..]);
    hide Line;
    assert s[..|r.value|] == r.value && s[|r.value| + 2..] == r.rest;
    assert buf[pos..pos + |r.value|] == s[..|r.value|];
    assert buf[pos + |r.value| + 2..] == s[|r.value| + 2..];
  }

  lemma BodyCut(buf: bytes, from: nat, n: nat)
    requires from + n + 2 <= |buf|
    ensures buf[from..from + n] == buf[from..][..n] && buf[from + n + 2..] == buf[from..][n + 2..]
  {
  }

  lemma MultiCases(level: nat, s: bytes)
    ensures var i, l := ReadItem(level, STAR, s), Line(s);
            if level == MAX_LEVEL then i == Fault(TooDeep)
            else if !l.Ok? then i == Short
            else
              var n := ParseInt(l.value);
              && (n.None? ==> i == Fault(BadMultiLength))
              && (n.Some? ==>
                    if n.value < -1 || n.value > INT_MAX then i == Fault(MultiOutOfRange)
                    else if n.value > 0 then i == Open(n.value, l.rest)
                    else i == Leaf(if n.value == 0 then Array([]) else Nil, l.rest))
  {
    hide Line, ParseInt;
  }

  ghost predicate BulkIs(s: bytes, i: Item)
    requires Line(s).Ok?
  {
    var l := Line(s);
    var n := ParseInt(l.value);
    if n.None? then i == Fault(BadBulkLength)
    else if n.value < -1 then i == Fault(BulkOutOfRange)
    else if n.value == -1 then i == Leaf(Nil, l.rest)
    else if n.value + 2 <= |l.rest| then i == Leaf(Str(l.rest[..n.value]), l.rest[n.value + 2..])
    else i == Short
  }

  lemma BulkCases(level: nat, s: bytes)
    requires Line(s).Ok?
    ensures BulkIs(s, ReadItem(level, DOLLAR, s))
  {
    hide Line, ParseInt;
  }

  lemma LineCases(level: nat, typ: byte, s: bytes)
    requires typ in {MINUS, PLUS, COLON}
    ensures var i, l := ReadItem(level, typ, s), Line(s);
            if !l.Ok? then i == Short
            else if typ != COLON then i == Leaf(if typ == PLUS then Status(l.value) else Error(l.value), l.rest)
            else
              var n := ParseInt(l.value);
              i == if n.None? then Fault(BadInteger) else Leaf(Integer(n.value), l.rest)
  {
    hide Line, ParseInt;
  }

  lemma BulkShort(level: nat, s: bytes)
    requires !Line(s).Ok?
    ensures ReadItem(level, DOLLAR, s) == Short
  {
  }

  lemma FaultyType(level: nat, b: byte, s: bytes)
    requires b !in {MINUS, PLUS, COLON, DOLLAR, STAR}
    ensures ReadItem(level, b, s) == Fault(BadType(b))
  {
  }

  /** At most a type byte: nothing can be finished yet. */
  lemma NothingToRead(frames: seq<Frame>, p: bytes)
    requires GoodFrames(frames) && |p| <= 1
    requires p != [] ==> p[0] in {MINUS, PLUS, COLON, DOLLAR, STAR} && (|frames| == MAX_LEVEL ==> p[0] != STAR)
    ensures Resume(frames, p) == Need
  {
    hide Climb;
  }

  /** An item that cannot be finished, or cannot be right, decides the whole reply. */
  lemma StuckItem(frames: seq<Frame>, p: bytes)
    requires GoodFrames(frames)
    ensures p == [] ==> Resume(frames, p) == Need
    ensures p != [] ==> var i := ReadItem(|frames|, p[0], p[1..]);
                        (i.Short? ==> Resume(frames, p) == Need && (|frames| == MAX_LEVEL ==> p[0] != STAR))
                           && (i.Fault? ==> Resume(frames, p) == Bad(i.error))
  {
    if p != [] {
      LeafUnfold(frames, p);
    }
    hide ReadItem, Climb;
  }

  /** A finished item or an opened array leaves the rest of the reply to be read from there. */
  lemma ItemStep(frames: seq<Frame>, p: bytes, done: Option<Reply>, frames': seq<Frame>)
    requires GoodFrames(frames) && GoodFrames(frames') && p != []
    requires var i := ReadItem(|frames|, p[0], p[1..]);
             (i.Leaf? && Climbs(frames, i.reply, done, frames'))
             || (i.Open? && done == None && frames' == frames + [Frame(i.count, [])])
    ensures Reads(frames, p, done, frames', ReadItem(|frames|, p[0], p[1..]).rest)
  {
    hide Climb, Resume, ReadItem;
    var i := ReadItem(|frames|, p[0], p[1..]);
    forall t
      ensures Resume(frames, p + t) == if done.Some? then Ok(done.value, i.rest + t) else Resume(frames', i.rest + t)
    {
      assert (p + t)[0] == p[0] && (p + t)[1..] == p[1..] + t;
      ReadItemExtend(|frames|, p[0], p[1..], t);
      LeafUnfold(frames, p + t);
      if i.Open? {
        ResumeOpen(frames, p + t);
      }
    }
  }

  /** sdsrange: keeps the bytes from start to end, both inclusive and counted from the end when
      negative, out-of-range positions standing for the nearest end. */
  method SdsRange(s: bytes, start0: int, end0: int) returns (r: bytes)
    ensures var from := Clamp(if start0 < 0 then |s| + start0 else start0, |s|);
            var to := Clamp((if end0 < 0 then Clamp(|s| + end0, |s|) else end0) + 1, |s|);
            r == if from <= to then s[from..to] else []
  {
    var len, start, end := |s|, start0, end0;
    if len == 0 {
      return s;
    }
    if start < 0 {
      start := len + start;
      if start < 0 {
        start := 0;
      }
    }
    if end < 0 {
      end := len + end;
      if end < 0 {
        end := 0;
      }
    }
    var newlen := if start > end then 0 else end - start + 1;
    if newlen != 0 {
      if start >= len {
        newlen := 0;
      } else if end >= len {
        end := len - 1;
        newlen := if start > end then 0 else end - start + 1;
      }
    } else {
      start := 0;
    }
    r := if newlen != 0 then s[start..start + newlen] else [];
  }

  function Clamp(i: int, n: nat): (r: nat)
    ensures r <= n
  {
    if i < 0 then 0 else if i > n then n else i
  }
}
