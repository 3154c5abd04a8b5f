/** The callback queue of async.c: plain commands, their replies, and contexts freed or disconnected from inside
    a callback. */
module AsyncCallbacks {
  import opened Bytes
  import opened RespGrammar
  import opened RespReader

  /** A registered callback; hasFn is false for a NULL function. */
  datatype Callback = Callback(hasFn: bool, privdata: int)

  /** What user code may do with a context. */
  datatype Action = Issue(cb: Callback, cmd: bytes) | Free | Disconnect

  /** One run of a callback; no reply stands for the NULL a callback gets when its context goes away. */
  datatype Run = Run(cb: Callback, reply: Option<Reply>)

  // ----- what the callbacks see -----

  /** The runs due when the commands cbs have been answered with rs, those without an answer getting NULL. */
  function Runs(cbs: seq<Callback>, rs: seq<Reply>): seq<Run> {
    if cbs == [] then []
    else
      var n := |cbs| - 1;
      Runs(cbs[..n], rs) + if cbs[n].hasFn then [Run(cbs[n], if n < |rs| then Some(rs[n]) else None)] else []
  }

  lemma RunsSnoc(cbs: seq<Callback>, cb: Callback, rs: seq<Reply>)
    ensures Runs(cbs + [cb], rs)
            == Runs(cbs, rs) + if cb.hasFn then [Run(cb, if |cbs| < |rs| then Some(rs[|cbs|]) else None)] else []
  {
    assert (cbs + [cb])[..|cbs|] == cbs;
  }

  lemma {:induction false} RunsLater(cbs: seq<Callback>, rs: seq<Reply>, r: Reply)
    requires |cbs| <= |rs|
    ensures Runs(cbs, rs + [r]) == Runs(cbs, rs)
  {
    if cbs != [] {
      RunsLater(cbs[..|cbs| - 1], rs, r);
    }
  }

  /** With a function for every command there is exactly one run for each, in the order of the commands, and the
      i-th gets the i-th reply. */
  lemma {:induction false} EachRunsOnce(cbs: seq<Callback>, rs: seq<Reply>)
    requires forall i :: 0 <= i < |cbs| ==> cbs[i].hasFn
    ensures |Runs(cbs, rs)| == |cbs|
    ensures forall i :: 0 <= i < |cbs| ==> Runs(cbs, rs)[i] == Run(cbs[i], if i < |rs| then Some(rs[i]) else None)
  {
    if cbs != [] {
      EachRunsOnce(cbs[..|cbs| - 1], rs);
    }
  }

  /** The history of a context: commands accepted and their bytes, callbacks taken off the list, the replies they got
      and the runs made, bytes written, bytes read and the replies found in them. */
  datatype Book = Book(accepted: seq<Callback>, cmds: seq<bytes>, done: seq<Callback>, answers: seq<Reply>,
                       calls: seq<Run>, sent: bytes, fed: bytes, seen: seq<Reply>)

  const BLANK := Book([], [], [], [], [], [], [], [])

  /** The history accounts for every accepted command: taken off the list and run once, or still waiting; and
      for every byte: written, or still in the output buffer. */
  ghost predicate Kept(b: Book, waiting: seq<Callback>, obuf: bytes) {
    && b.accepted == b.done + waiting && |b.answers| <= |b.done|
    && b.calls == Runs(b.done, b.answers)
    && |b.cmds| == |b.accepted| && b.sent + obuf == Concat(b.cmds)
    && b.answers <= b.seen
  }

  function Issued(b: Book, cb: Callback, cmd: bytes): Book {
    b.(accepted := b.accepted + [cb], cmds := b.cmds + [cmd])
  }

  function Took(b: Book, cb: Callback, reply: Option<Reply>): Book {
    b.(done := b.done + [cb], answers := b.answers + (if reply.Some? then [reply.value] else []),
       calls := b.calls + (if cb.hasFn then [Run(cb, reply)] else []))
  }

  /** After one of these a context takes no more commands. */
  predicate Closes(actions: seq<Action>) {
    Free in actions || Disconnect in actions
  }

  /** What a callback's actions do to the history: commands are accepted until one of the actions closes the context,
      none if it is closed already. */
  function Performed(b: Book, actions: seq<Action>, closed: bool): Book {
    if actions == [] then b
    else
      var n := |actions| - 1;
      Perform(Performed(b, actions[..n], closed), actions[n], closed || Closes(actions[..n]))
  }

  function Perform(b: Book, a: Action, closed: bool): Book {
    if a.Issue? && !closed then Issued(b, a.cb, a.cmd) else b
  }

  lemma PerformedSnoc(b: Book, actions: seq<Action>, i: nat, closed: bool)
    requires i < |actions|
    ensures Performed(b, actions[..i + 1], closed)
            == Perform(Performed(b, actions[..i], closed), actions[i], closed || Closes(actions[..i]))
    ensures Closes(actions[..i + 1]) <==> Closes(actions[..i]) || actions[i].Free? || actions[i].Disconnect?
    ensures Free in actions[..i + 1] <==> Free in actions[..i] || actions[i].Free?
    ensures Disconnect in actions[..i + 1] <==> Disconnect in actions[..i] || actions[i].Disconnect?
  {
    assert actions[..i + 1] == actions[..i] + [actions[i]];
  }

  /** Every callback run, those without a reply with NULL. */
  function Ended(b: Book): Book {
    b.(done := b.accepted, calls := Runs(b.accepted, b.answers))
  }

  /** A reply came in with no command left to take it, and it is an error. */
  ghost predicate Spontaneous(b: Book) {
    var n := |b.answers|;
    b.answers <= b.seen && |b.seen| == n + 1 && b.seen[n].Error? && n == |b.accepted|
  }

  /** One of the first n callbacks run wanted the context gone. */
  ghost predicate Asked(oracle: nat -> seq<Action>, n: nat) {
    exists k: nat :: k < n && Closes(oracle(k))
  }

  /** None of the first n callbacks run wanted it freed. */
  ghost predicate NoFree(oracle: nat -> seq<Action>, n: nat) {
    forall k: nat :: k < n ==> Free !in oracle(k)
  }

  lemma OneMoreRun(oracle: nat -> seq<Action>, n: nat)
    ensures Asked(oracle, n + 1) <==> Asked(oracle, n) || Closes(oracle(n))
    ensures NoFree(oracle, n + 1) <==> NoFree(oracle, n) && Free !in oracle(n)
  {
    hide Closes;
    if Asked(oracle, n) {
      var k: nat :| k < n && Closes(oracle(k));
      assert k < n + 1 && Closes(oracle(k));
    }
    if Closes(oracle(n)) {
      assert n < n + 1 && Closes(oracle(n));
    }
  }

  lemma AskedBefore(oracle: nat -> seq<Action>, m: nat, n: nat)
    requires m <= n && Asked(oracle, m)
    ensures Asked(oracle, n)
  {
    hide Closes;
    var k: nat :| k < m && Closes(oracle(k));
    assert k < n && Closes(oracle(k));
  }

  lemma IssuedKept(b: Book, waiting: seq<Callback>, obuf: bytes, cb: Callback, cmd: bytes)
    requires Kept(b, waiting, obuf)
    ensures Kept(Issued(b, cb, cmd), waiting + [cb], obuf + cmd)
  {
    assert b.accepted + [cb] == b.done + (waiting + [cb]);
    ConcatAppend(b.cmds, [cmd]);
    assert Concat([cmd]) == cmd + Concat([]);
    assert b.sent + (obuf + cmd) == b.sent + obuf + cmd;
  }

  /** Taking the first callback for the next reply of a list all of whose earlier callbacks got one, or for none. */
  lemma TookKept(b: Book, cb: Callback, waiting: seq<Callback>, obuf: bytes, reply: Option<Reply>)
    requires Kept(b, [cb] + waiting, obuf)
    requires reply.Some? ==> |b.answers| == |b.done| && b.seen == b.answers + [reply.value]
    ensures Kept(Took(b, cb, reply), waiting, obuf)
  {
    assert b.done + ([cb] + waiting) == b.done + [cb] + waiting;
    match reply
    case Some(r) =>
      RunsSnoc(b.done, cb, b.answers + [r]);
      RunsLater(b.done, b.answers, r);
    case None =>
      RunsSnoc(b.done, cb, b.answers);
      assert b.answers + [] == b.answers;
  }

  lemma SentKept(b: Book, waiting: seq<Callback>, obuf: bytes, n: nat)
    requires Kept(b, waiting, obuf) && n <= |obuf|
    ensures Kept(b.(sent := b.sent + obuf[..n]), waiting, obuf[n..])
  {
    assert b.sent + obuf[..n] + obuf[n..] == b.sent + obuf;
  }

  /** The replies seen, followed by what the reader's state says, are the reading of all bytes fed. */
  ghost predicate Reading(fed: bytes, seen: seq<Reply>, s: State) {
    GoodState(s) && forall t :: StreamOf(fed + t) == Prepend(seen, Says(s, t))
  }

  lemma ReadingStart()
    ensures Reading([], [], START)
  {
    hide StreamOf, Parse, Says;
    forall t ensures StreamOf([] + t) == Prepend([], Says(START, t)) {
      FreshSays([], t);
      PrependNone(StreamOf([] + t));
    }
  }

  lemma ReadingFeed(fed: bytes, seen: seq<Reply>, s: State, chunk: bytes)
    requires Reading(fed, seen, s)
    ensures Reading(fed + chunk, seen, FeedState(s, chunk))
  {
    hide StreamOf, Parse, Says, Prepend, Resume;
    var s' := FeedState(s, chunk);
    forall t ensures StreamOf(fed + chunk + t) == Prepend(seen, Says(s', t)) {
      assert [Feed(chunk)][..0] == [];
      CallKeepsMeaning(s, Feed(chunk), s', t);
      PrependNone(Says(s', t));
      assert Fed([Feed(chunk)]) + t == chunk + t && Emitted([Feed(chunk)]) == [];
      assert fed + chunk + t == fed + (chunk + t);
      assert StreamOf(fed + (chunk + t)) == Prepend(seen, Says(s, chunk + t));
    }
  }

  lemma ReadingGet(fed: bytes, seen: seq<Reply>, s: State, a: Answer, s': State)
    requires Reading(fed, seen, s) && GetStep(s, a, s')
    ensures Reading(fed, seen + (if a.reply.Some? then [a.reply.value] else []), s')
  {
    hide StreamOf, Parse, Says, Prepend, Resume;
    var more := if a.reply.Some? then [a.reply.value] else [];
    forall t ensures StreamOf(fed + t) == Prepend(seen + more, Says(s', t)) {
      assert [Get(a)][..0] == [];
      CallKeepsMeaning(s, Get(a), s', t);
      assert Fed([Get(a)]) + t == t && Emitted([Get(a)]) == more;
      PrependTwice(seen, more, Says(s', t));
    }
  }

  /** The replies seen are the first ones of the bytes fed. */
  lemma ReadingPrefix(fed: bytes, seen: seq<Reply>, s: State)
    requires Reading(fed, seen, s)
    ensures seen <= StreamOf(fed).replies
  {
    hide StreamOf, Says;
    assert fed + [] == fed;
    assert StreamOf(fed + []) == Prepend(seen, Says(s, []));
  }

  /** When the reader has no reply to give, those seen are all there are. */
  lemma ReadingDry(fed: bytes, seen: seq<Reply>, s: State, s': State)
    requires Reading(fed, seen, s') && GoodState(s) && GetStep(s, Answer(None, false), s')
    ensures s'.err == None && StreamOf(fed) == Stream(seen, Waiting)
  {
    hide StreamOf, Parse, Resume;
    assert fed + [] == fed && s.pending + [] == s.pending && s'.pending + [] == s'.pending;
    assert Resume(s'.frames, s'.pending + []) == Resume(s.frames, s.pending + []);
    assert Says(s', []) == Stream([], Waiting);
    assert StreamOf(fed + []) == Prepend(seen, Says(s', []));
    assert seen + [] == seen;
  }

  /** When the reader has failed, the bytes hold a protocol error after the replies seen. */
  lemma ReadingFailed(fed: bytes, seen: seq<Reply>, s: State)
    requires Reading(fed, seen, s) && s.err.Some?
    ensures StreamOf(fed) == Stream(seen, Failed(s.err.value))
  {
    hide StreamOf;
    assert fed + [] == fed;
    assert StreamOf(fed + []) == Prepend(seen, Says(s, []));
    assert seen + [] == seen;
  }

  lemma {:induction false} ClimbShorter(frames: seq<Frame>, r: Reply, s: bytes)
    requires GoodFrames(frames) && Climb(frames, r, s).Ok?
    ensures |Climb(frames, r, s).rest| <= |s|
    decreases |frames|
  {
    hide ParseMany;
    if frames != [] {
      var f := frames[|frames| - 1];
      var p := ParseMany(|frames|, f.total - |f.done| - 1, s);
      ClimbShorter(frames[..|frames| - 1], Array(f.done + [r] + p.value), p.rest);
    }
  }

  /** Every reply handed out uses up input. */
  lemma GetShorter(s: State, a: Answer, s': State)
    requires GoodState(s) && GetStep(s, a, s') && a.reply.Some?
    ensures |s'.pending| < |s.pending| && s'.err == None && s.err == None
  {
    hide Parse, Climb;
    var p := Parse(|s.frames|, s.pending);
    if p.Ok? {
      ClimbShorter(s.frames, p.value, p.rest);
    }
  }

  // ----- the list of callbacks -----

  datatype Cell = Cell(cb: Callback, next: Ref)

  function RefAt(ids: seq<nat>, i: nat): Ref {
    if i < |ids| then At(ids[i]) else Null
  }

  /** The cells ids, linked from head to tail, hold the callbacks cbs. */
  ghost predicate Linked(cells: map<nat, Cell>, head: Ref, tail: Ref, ids: seq<nat>, cbs: seq<Callback>) {
    && |ids| == |cbs|
    && (forall i, j :: 0 <= i < j < |ids| ==> ids[i] != ids[j])
    && (forall i :: 0 <= i < |ids| ==> ids[i] in cells && cells[ids[i]] == Cell(cbs[i], RefAt(ids, i + 1)))
    && head == RefAt(ids, 0) && tail == if ids == [] then Null else At(ids[|ids| - 1])
  }

  lemma LinkedPush(cells: map<nat, Cell>, head: Ref, tail: Ref, ids: seq<nat>, cbs: seq<Callback>, id: nat,
                   cb: Callback)
    requires Linked(cells, head, tail, ids, cbs) && id !in cells
    ensures tail != Null ==> tail.id in cells
    ensures var cells' := cells[id := Cell(cb, Null)];
            Linked(if tail == Null then cells' else cells'[tail.id := cells'[tail.id].(next := At(id))],
                   if head == Null then At(id) else head, At(id), ids + [id], cbs + [cb])
  {
  }

  class CallbackList {
    var cells: map<nat, Cell>
    var head: Ref
    var tail: Ref
    var unused: nat
    ghost var ids: seq<nat>
    ghost var contents: seq<Callback>

    ghost predicate Valid()
      reads this
    {
      Linked(cells, head, tail, ids, contents) && forall id :: id in cells ==> id < unused
    }

    constructor ()
      ensures Valid() && contents == []
    {
      cells, head, tail, unused, ids, contents := map[], Null, Null, 0, [], [];
    }

    lemma HeadTells()
      requires Valid()
      ensures head == Null <==> contents == []
    {
    }

    /** __redisPushCallback; the new cell is at the next unused address. */
    method Push(cb: Callback)
      requires Valid()
      modifies this
      ensures Valid() && contents == old(contents) + [cb]
    {
      hide Linked;
      LinkedPush(cells, head, tail, ids, contents, unused, cb);
      var id := unused;
      cells, unused := cells[id := Cell(cb, Null)], unused + 1;
      if head == Null {
        head := At(id);
      }
      if tail != Null {
        cells := cells[tail.id := cells[tail.id].(next := At(id))];
      }
      tail := At(id);
      ids, contents := ids + [id], contents + [cb];
    }

    /** __redisShiftCallback */
    method Shift() returns (r: Option<Callback>)
      requires Valid()
      modifies this
      ensures Valid()
      ensures r == if old(contents) == [] then None else Some(old(contents)[0])
      ensures contents == if old(contents) == [] then [] else old(contents)[1..]
    {
      if head == Null {
        return None;
      }
      var cell, at := cells[head.id], head;
      head := cell.next;
      if at == tail {
        tail := Null;
      }
      cells := cells - {at.id};
      ids, contents := ids[1..], contents[1..];
      return Some(cell.cb);
    }
  }

  // ----- the context -----

  datatype Event =
    | User(action: Action)
    | ReadBytes(chunk: bytes)
    | ReadFailed
    | WriteBytes(n: nat)
    | WriteFailed

  /** Only commands have been accepted since b. */
  ghost predicate Issues(b: Book, b': Book) {
    b' == b.(accepted := b'.accepted, cmds := b'.cmds) && b.accepted <= b'.accepted
  }

  /** A connected context. What a callback does is the answer of an oracle, asked once for every run. */
  class Context {
    const oracle: nat -> seq<Action>
    const replies: CallbackList
    const reader: Reader
    var inCallback: bool
    var freeing: bool
    var disconnecting: bool
    var err: bool
    var obuf: bytes
    var runs: nat
    var frees: nat
    var aborted: bool
    /** The status onDisconnect was called with, true for REDIS_OK. */
    var notified: Option<bool>
    ghost var book: Book

    /** Not freed and not aborted; every accepted command accounted for. */
    ghost predicate Alive()
      reads this, replies
    {
      && replies.Valid() && Kept(book, replies.contents, obuf) && runs == |book.calls|
      && frees == 0 && !aborted && notified == None
    }

    /** Between two events, or two replies: every callback taken off the list got its reply. */
    ghost predicate Tidy()
      reads this, replies
    {
      && Alive() && !inCallback && !freeing && !err && book.answers == book.seen && |book.done| == |book.answers|
      && NoFree(oracle, runs)
    }

    /** Every reply seen went to a callback, or is the error that ends the context. */
    ghost predicate Handed()
      reads this
    {
      book.seen == book.answers || (err && Spontaneous(book))
    }

    ghost predicate ReaderOk()
      reads this, reader, reader.rstack
    {
      reader.Valid() && reader.Rested() && Reading(book.fed, book.seen, reader.Abs())
    }

    /** Freed, once, after every accepted command's callback has run; with NULL only on an error or when the user
        asked for it with redisAsyncFree. */
    ghost predicate Closed()
      reads this, replies
    {
      && frees == 1 && !aborted && notified == Some(freeing || !err)
      && Kept(book, [], obuf) && runs == |book.calls| && (freeing || disconnecting) && Handed()
      && (!freeing && !err ==> |book.answers| == |book.accepted|)
    }

    /** The assertion on spontaneous replies failed: a reply that is no error came with no command waiting. */
    ghost predicate Aborted()
      reads this
    {
      && aborted && frees == 0 && Kept(book, [], obuf) && |book.answers| == |book.accepted|
      && |book.seen| == |book.answers| + 1 && !book.seen[|book.answers|].Error? && !err
    }

    /** Between events. While the context lives, every complete reply of the bytes read so far has been handed over. */
    ghost predicate Valid()
      reads this, replies, reader, reader.rstack
    {
      ReaderOk() && if aborted then Aborted() else if frees > 0 then Closed()
                    else Tidy() && reader.err == None && StreamOf(book.fed) == Stream(book.seen, Waiting)
    }

    constructor (oracle: nat -> seq<Action>)
      ensures Valid() && frees == 0 && !aborted && book == BLANK && this.oracle == oracle
      ensures fresh(replies) && fresh(reader) && fresh(reader.rstack)
    {
      hide StreamOf, Reading, Kept, Runs, Linked, Resume, Reader.Frames, Reader.Pending, Says, Closed, Aborted,
          GoodState;
      this.oracle := oracle;
      replies := new CallbackList();
      reader := new Reader();
      inCallback, freeing, disconnecting, err, aborted := false, false, false, false, false;
      obuf, runs, frees, notified := [], 0, 0, None;
      book := BLANK;
      new;
      ReadingStart();
      EmptyStream();
      BlankKept();
    }

    /** __redisAsyncCommand for a plain command: refused once the context is being disconnected or freed. */
    method Command(cb: Callback, cmd: bytes) returns (ok: bool)
      requires Alive()
      modifies this`obuf, this`book, replies
      ensures Alive() && ok == !(disconnecting || freeing)
      ensures book == if ok then Issued(old(book), cb, cmd) else old(book)
      ensures replies.contents == if ok then old(replies.contents) + [cb] else old(replies.contents)
      ensures obuf == if ok then old(obuf) + cmd else old(obuf)
    {
      hide Kept;
      if disconnecting || freeing {
        return false;
      }
      IssuedKept(book, replies.contents, obuf, cb, cmd);
      replies.Push(cb);
      obuf := obuf + cmd;
      book := Issued(book, cb, cmd);
      return true;
    }

    /** What user code does inside a callback: nothing is freed or disconnected yet, the flags say what is due. */
    method ActInside(a: Action)
      requires Alive() && inCallback
      modifies this, replies
      ensures Alive() && inCallback && Issues(old(book), book) && err == old(err)
      ensures runs == old(runs) && freeing == (old(freeing) || a.Free?)
      ensures disconnecting == (old(disconnecting) || a.Disconnect?)
      ensures book == Perform(old(book), a, old(freeing || disconnecting))
      ensures old(freeing || disconnecting) ==> book == old(book) && replies.contents == old(replies.contents)
      decreases 1, 0
    {
      hide Kept;
      IssuesOne(book);
      match a
      case Issue(cb, cmd) => var _ := Command(cb, cmd);
      case Free => AsyncFree();
      case Disconnect => AsyncDisconnect();
    }

    /** The user's function. */
    method RunActions(actions: seq<Action>)
      requires Alive() && inCallback
      modifies this, replies
      ensures Alive() && inCallback && Issues(old(book), book) && err == old(err) && runs == old(runs)
      ensures freeing == (old(freeing) || Free in actions)
              && disconnecting == (old(disconnecting) || Disconnect in actions)
      ensures book == Performed(old(book), actions, old(freeing || disconnecting))
      ensures old(freeing || disconnecting) ==> book == old(book) && replies.contents == old(replies.contents)
      decreases 1, 1
    {
      hide Kept, Issues, Performed, Perform, Closes, Linked;
      PerformedNothing(book, freeing || disconnecting);
      IssuesNone(book);
      ghost var before, closed := book, freeing || disconnecting;
      assert actions[..0] == [];
      for i := 0 to |actions|
        invariant Alive() && inCallback && Issues(before, book) && err == old(err) && runs == old(runs)
        invariant freeing == (old(freeing) || Free in actions[..i])
        invariant disconnecting == (old(disconnecting) || Disconnect in actions[..i])
        invariant book == Performed(before, actions[..i], closed)
        invariant closed ==> book == before && replies.contents == old(replies.contents)
        invariant (freeing || disconnecting) == (closed || Closes(actions[..i]))
      {
        ghost var so := book;
        PerformedSnoc(before, actions, i, closed);
        ActInside(actions[i]);
        IssuesThen(before, so, book);
      }
      assert actions[..|actions|] == actions;
    }

    /** __redisRunCallback for a callback just taken off the list. */
    method RunCallback(cb: Callback, reply: Option<Reply>)
      requires replies.Valid() && Kept(book, [cb] + replies.contents, obuf) && runs == |book.calls|
      requires frees == 0 && !aborted && notified == None && !inCallback
      requires reply.Some? ==> |book.answers| == |book.done| && book.seen == book.answers + [reply.value]
      modifies this, replies
      ensures Alive() && !inCallback && Issues(Took(old(book), cb, reply), book) && err == old(err)
      ensures runs == old(runs) + if cb.hasFn then 1 else 0
      ensures var actions := if cb.hasFn then oracle(old(runs)) else [];
              && freeing == (old(freeing) || Free in actions)
              && disconnecting == (old(disconnecting) || Disconnect in actions)
              && book == Performed(Took(old(book), cb, reply), actions, old(freeing || disconnecting))
      ensures old(freeing || disconnecting) ==> book == Took(old(book), cb, reply)
                                                && replies.contents == old(replies.contents)
      decreases 2
    {
      hide Kept, Issues, Took, Performed;
      TookKept(book, cb, replies.contents, obuf, reply);
      PerformedNothing(Took(book, cb, reply), freeing || disconnecting);
      TookCalls(book, cb, reply);
      book := Took(book, cb, reply);
      IssuesNone(book);
      if cb.hasFn {
        inCallback := true;
        var actions := oracle(runs);
        runs := runs + 1;
        RunActions(actions);
        inCallback := false;
      }
    }

    /** __redisAsyncFree: the callbacks still waiting run with NULL, then the context is gone. */
    method FreeContext()
      requires Alive() && !inCallback && (freeing || disconnecting) && Handed()
      requires !freeing && !err ==> replies.contents == [] && |book.answers| == |book.done|
      modifies this, replies
      ensures Closed() && err == old(err) && (old(freeing) ==> freeing) && runs >= old(runs)
      ensures book == Ended(old(book))
      decreases 3
    {
      ghost var before := book;
      hide Spontaneous, Performed, Kept, Took, Issues, Ended, Runs, Linked;
      ghost var waiting := replies.contents;
      var cb := replies.Shift();
      assert waiting == (if cb.Some? then [cb.value] else []) + replies.contents;
      while cb.Some?
        invariant replies.Valid() && runs == |book.calls| && frees == 0 && !aborted && notified == None && !inCallback
        invariant Kept(book, waiting, obuf) && waiting == (if cb.Some? then [cb.value] else []) + replies.contents
        invariant (freeing || disconnecting) && runs >= old(runs)
        invariant err == old(err) && (old(freeing) ==> freeing)
        invariant !freeing && !err ==> cb.None? && |book.answers| == |book.done|
        invariant book == before.(done := book.done, calls := book.calls)
        invariant cb.None? ==> replies.contents == []
        decreases cb.Some?, |replies.contents|
      {
        TookNothing(book, cb.value);
        RunCallback(cb.value, None);
        waiting := replies.contents;
        cb := replies.Shift();
        assert waiting == (if cb.Some? then [cb.value] else []) + replies.contents;
      }
      AllDone(before, book, obuf);
      EndedHanded(before, err);
      notified := Some(freeing || !err);
      frees := frees + 1;
    }

    /** redisAsyncFree */
    method AsyncFree()
      requires Alive() && (!inCallback ==> Handed())
      modifies this, replies
      ensures freeing
      ensures old(inCallback) ==> Alive() && inCallback && book == old(book)
                                  && replies.contents == old(replies.contents)
                                  && err == old(err) && disconnecting == old(disconnecting) && runs == old(runs)
      ensures !old(inCallback) ==> Closed() && err == old(err) && book == Ended(old(book)) && runs >= old(runs)
      decreases if inCallback then 0 else 4
    {
      hide Kept;
      freeing := true;
      if !inCallback {
        FreeContext();
      }
    }

    /** __redisAsyncDisconnect: a clean one has no callback left to run. */
    method DisconnectNow()
      requires Alive() && !inCallback && Handed()
      requires err || (disconnecting && replies.contents == [] && |book.answers| == |book.done|)
      modifies this, replies
      ensures Closed() && frees == 1 && !aborted && err == old(err) && runs >= old(runs)
      ensures book == Ended(old(book))
      decreases 4
    {
      hide Kept;
      if !err {
        var cb := replies.Shift();
        assert cb == None;
      } else {
        disconnecting := true;
      }
      FreeContext();
    }

    /** redisAsyncDisconnect */
    method AsyncDisconnect()
      requires Alive() && (!inCallback ==> Tidy())
      modifies this, replies
      ensures old(inCallback) ==> Alive() && inCallback && disconnecting && book == old(book)
                                  && replies.contents == old(replies.contents)
                                  && err == old(err) && freeing == old(freeing) && runs == old(runs)
      ensures !old(inCallback) && old(replies.contents) != [] ==> Tidy() && disconnecting && book == old(book)
      ensures !old(inCallback) && old(replies.contents) != [] ==> replies.contents == old(replies.contents)
                                                                  && runs == old(runs)
      ensures !old(inCallback) && old(replies.contents) == [] ==> Closed() && !err && book == Ended(old(book))
                                                                  && runs >= old(runs)
      decreases if inCallback then 0 else 5
    {
      hide Kept;
      disconnecting := true;
      if !inCallback && replies.head == Null {
        DisconnectNow();
      }
    }

    /** redisProcessCallbacks */
    method ProcessCallbacks()
      requires Tidy() && ReaderOk() && reader.err == None
      modifies this, replies, reader, reader.rstack
      ensures Valid() && book.fed == old(book.fed) && book.sent == old(book.sent) && runs >= old(runs)
      ensures frees == 0 && !aborted && disconnecting ==> obuf != [] || replies.contents != []
      ensures frees == 1 || disconnecting ==> err || old(disconnecting) || Asked(oracle, runs)
      ensures err ==> frees == 1 && (StreamOf(book.fed).ending.Failed? || Spontaneous(book))
    {
      hide Kept, Reading, StreamOf, GetStep, Runs, Linked, Resume, Reader.Frames, Reader.Pending, Aborted,
          Closed, CallbackList.Valid, Spontaneous, Asked, NoFree;
      while true
        invariant Tidy() && ReaderOk() && reader.err == None
        invariant book.fed == old(book.fed) && book.sent == old(book.sent) && runs >= old(runs)
        invariant disconnecting ==> old(disconnecting) || Asked(oracle, runs)
        decreases |reader.Abs().pending|
      {
        ghost var s := reader.Abs();
        var a := reader.GetReply();
        ReadingGet(book.fed, book.seen, s, a, reader.Abs());
        GetCases(s, a, reader.Abs());
        if a.failed {
          assert book.seen + [] == book.seen;
          ReadingFailed(book.fed, book.seen, reader.Abs());
          err := true;
          DisconnectNow();
          return;
        }
        if a.reply.None? {
          assert book.seen + [] == book.seen;
          ReadingDry(book.fed, book.seen, s, reader.Abs());
          replies.HeadTells();
          if disconnecting && obuf == [] && replies.head == Null {
            ghost var before := runs;
            DisconnectNow();
            if Asked(oracle, before) {
              AskedBefore(oracle, before, runs);
            }
          }
          return;
        }
        ghost var before := runs;
        var stop := Deliver(a.reply.value);
        if Asked(oracle, before) {
          AskedBefore(oracle, before, runs);
        }
        if stop {
          return;
        }
      }
    }

    /** What the history is once the reply r has gone to cb and cb has run. */
    ghost function Answered(b: Book, cb: Callback, r: Reply, closed: bool): Book
      reads this
    {
      Performed(Took(b.(seen := b.seen + [r]), cb, Some(r)), if cb.hasFn then oracle(runs) else [], closed)
    }

    /** The body of redisProcessCallbacks for one reply. The first callback waiting gets it and runs next; with none
        waiting an error closes the context, and any other reply fails the assertion. Stops when the context is gone. */
    method Deliver(r: Reply) returns (stop: bool)
      requires Tidy()
      modifies this, replies
      ensures book.fed == old(book.fed) && book.sent == old(book.sent) && book.seen == old(book.seen) + [r]
      ensures !stop ==> Tidy()
      ensures stop ==> if aborted then Aborted() && frees == 0 && !err else Closed() && frees == 1
      ensures old(replies.contents) != [] ==>
                var cb, b := old(replies.contents)[0], old(book);
                && book.answers == b.answers + [r] && !err && !aborted
                && b.calls + (if cb.hasFn then [Run(cb, Some(r))] else []) <= book.calls
                && (stop <==> cb.hasFn && Free in oracle(old(runs))) && (stop ==> Asked(oracle, runs))
                && book == (var b' := old(Answered(b, cb, r, disconnecting)); if stop then Ended(b') else b')
      ensures old(replies.contents) == [] ==>
                && book == old(book).(seen := old(book.seen) + [r]) && stop
                && (if r.Error? then frees == 1 && err && Spontaneous(book) else aborted && !err)
      ensures runs >= old(runs)
      ensures (!stop || aborted) && disconnecting ==> old(disconnecting) || Asked(oracle, runs)
    {
      hide Kept, Issues, Took, Performed, Asked, NoFree, Ended;
      ghost var waiting := replies.contents;
      SeenKept(book, waiting, obuf, r);
      book := book.(seen := book.seen + [r]);
      var cb := replies.Shift();
      if cb.Some? {
        assert waiting == [cb.value] + replies.contents;
        stop := Claimed(cb.value, r);
        return;
      }
      NoneWaiting(book, obuf);
      if r.Error? {
        err := true;
        DisconnectNow();
        return true;
      }
      aborted := true;
      return true;
    }

    /** A reply for a callback just taken off the list. */
    method Claimed(cb: Callback, r: Reply) returns (stop: bool)
      requires replies.Valid() && Kept(book, [cb] + replies.contents, obuf) && runs == |book.calls|
      requires frees == 0 && !aborted && notified == None && !inCallback && !freeing && !err
      requires |book.answers| == |book.done| && book.seen == book.answers + [r] && NoFree(oracle, runs)
      modifies this, replies
      ensures if stop then Closed() else Tidy()
      ensures book.fed == old(book.fed) && book.sent == old(book.sent) && book.seen == old(book.seen)
      ensures book.answers == old(book.answers) + [r] && !err && !aborted && runs >= old(runs)
      ensures old(book.calls) + (if cb.hasFn then [Run(cb, Some(r))] else []) <= book.calls
      ensures stop <==> cb.hasFn && Free in oracle(old(runs))
      ensures stop || (disconnecting && !old(disconnecting)) ==> Asked(oracle, runs)
      ensures var b' := Performed(Took(old(book), cb, Some(r)), if cb.hasFn then oracle(old(runs)) else [],
                                  old(disconnecting));
              book == if stop then Ended(b') else b'
    {
      hide Kept, Issues, Took, Performed, Asked, NoFree, Ended;
      ghost var before, asked := book, runs + 1;
      TookAnswer(book, cb, r);
      if !cb.hasFn {
        TookKept(book, cb, replies.contents, obuf, Some(r));
        PerformedNothing(Took(book, cb, Some(r)), disconnecting);
        book := Took(book, cb, Some(r));
        return false;
      }
      OneMoreRun(oracle, runs);
      AskedOne(oracle(runs));
      RunCallback(cb, Some(r));
      IssuesKeeps(Took(before, cb, Some(r)), book);
      if freeing {
        EndedCalls(book, replies.contents, obuf);
        FreeContext();
        AskedBefore(oracle, asked, runs);
        return true;
      }
      return false;
    }

    /** redisAsyncHandleRead: reading fails, or yields a chunk, empty when the socket had nothing. */
    method HandleRead(chunk: Option<bytes>)
      requires Valid() && frees == 0 && !aborted
      modifies this, replies, reader, reader.rstack
      ensures Valid() && book.sent == old(book.sent) && runs >= old(runs)
      ensures book.fed == old(book.fed) + if chunk.Some? then chunk.value else []
      ensures chunk.None? ==> frees == 1 && err
      ensures frees == 0 && !aborted && disconnecting ==> obuf != [] || replies.contents != []
      ensures frees == 1 || disconnecting ==> err || old(disconnecting) || Asked(oracle, runs)
      ensures err ==> frees == 1 && (chunk.None? || StreamOf(book.fed).ending.Failed? || Spontaneous(book))
    {
      hide Kept, Reading, StreamOf, GetStep, Issues, Asked, NoFree, Spontaneous, Closed, Aborted;
      if chunk.None? {
        err := true;
        DisconnectNow();
        return;
      }
      ReadingFeed(book.fed, book.seen, reader.Abs(), chunk.value);
      var ok := reader.FeedBytes(chunk.value);
      FedKept(book, replies.contents, obuf, book.fed + chunk.value);
      book := book.(fed := book.fed + chunk.value);
      ProcessCallbacks();
    }

    /** redisAsyncHandleWrite: writing fails, or takes up to n bytes of the output buffer. */
    method HandleWrite(n: Option<nat>)
      requires Valid() && frees == 0 && !aborted
      modifies this, replies
      ensures Valid() && book.fed == old(book.fed) && runs >= old(runs)
      ensures n.None? ==> frees == 1 && err
      ensures n.Some? ==> frees == 0 && !aborted && !err && replies.contents == old(replies.contents)
                          && disconnecting == old(disconnecting)
                          && book.sent == old(book.sent) + old(obuf)[..Least(n.value, |old(obuf)|)]
    {
      hide Kept, Reading, StreamOf, GetStep, Issues, NoFree, Spontaneous, Closed, Aborted;
      if n.None? {
        err := true;
        DisconnectNow();
        return;
      }
      var k := Least(n.value, |obuf|);
      SentKept(book, replies.contents, obuf, k);
      book := book.(sent := book.sent + obuf[..k]);
      obuf := obuf[k..];
    }

    /** User code outside any callback. */
    method Act(a: Action)
      requires Valid() && frees == 0 && !aborted
      modifies this, replies
      ensures Valid() && book.fed == old(book.fed) && book.sent == old(book.sent) && !err && runs >= old(runs)
      ensures a.Issue? ==> frees == 0 && !aborted && book == Perform(old(book), a, old(disconnecting))
                           && disconnecting == old(disconnecting)
      ensures a.Free? ==> frees == 1 && book == Ended(old(book))
      ensures a.Disconnect? ==> (frees == 1 <==> old(replies.contents) == [])
                                && (frees == 0 ==> disconnecting && book == old(book))
    {
      hide Valid, Kept, Reading, StreamOf;
      match a
      case Issue(cb, cmd) => ActIssue(cb, cmd);
      case Free => ActFree();
      case Disconnect => ActDisconnect();
    }

    method ActIssue(cb: Callback, cmd: bytes)
      requires Valid() && frees == 0 && !aborted
      modifies this, replies
      ensures Valid() && book == Perform(old(book), Issue(cb, cmd), old(disconnecting)) && frees == 0 && !aborted
      ensures !err && runs == old(runs) && disconnecting == old(disconnecting)
    {
      hide Kept, Reading, StreamOf, Linked, Closed, Aborted, NoFree;
      var _ := Command(cb, cmd);
    }

    method ActFree()
      requires Valid() && frees == 0 && !aborted
      modifies this, replies
      ensures Valid() && book == Ended(old(book)) && frees == 1 && !err && runs >= old(runs)
    {
      hide Kept, Reading, StreamOf, Linked, Runs, NoFree, Spontaneous;
      AsyncFree();
    }

    method ActDisconnect()
      requires Valid() && frees == 0 && !aborted
      modifies this, replies
      ensures Valid() && book.fed == old(book.fed) && book.sent == old(book.sent) && !err && runs >= old(runs)
      ensures if old(replies.contents) == [] then frees == 1 && !err && book == Ended(old(book))
              else frees == 0 && !aborted && disconnecting && book == old(book)
                   && replies.contents == old(replies.contents)
    {
      hide Kept, Reading, StreamOf, Linked, Runs, NoFree, Spontaneous;
      AsyncDisconnect();
    }

    /** What Valid says of the callbacks: while the context lives the commands answered are the first ones, and
        every reply read has been handed over; once it is gone, freed once, all have run, each once and in order. */
    lemma Account()
      requires Valid()
      ensures frees <= 1 && !(frees == 1 && aborted) && book.answers <= StreamOf(book.fed).replies
              && |book.answers| <= |book.accepted|
      ensures book.seen == book.answers || (aborted && |book.seen| == |book.answers| + 1)
              || (frees == 1 && err && Spontaneous(book))
      ensures frees == 1 && err && Spontaneous(book) ==>
                var n := |book.accepted|;
                |book.answers| == n < |StreamOf(book.fed).replies| && StreamOf(book.fed).replies[n].Error?
      ensures frees == 0 && !aborted ==> StreamOf(book.fed) == Stream(book.answers, Waiting) && !err && !freeing
                                         && NoFree(oracle, runs)
                                         && book.calls == Runs(book.accepted[..|book.answers|], book.answers)
      ensures frees == 1 ==> book.calls == Runs(book.accepted, book.answers)
      ensures frees == 1 && !freeing && !err ==> |book.answers| == |book.accepted|
      ensures aborted ==> var n := |book.accepted|;
                          |book.answers| == n < |StreamOf(book.fed).replies| && !StreamOf(book.fed).replies[n].Error?
    {
      hide StreamOf, Reading, Runs, Linked, NoFree;
      ReadingPrefix(book.fed, book.seen, reader.Abs());
      if frees == 0 && !aborted {
        assert book.accepted[..|book.answers|] == book.done;
      } else {
        assert book.done == book.accepted;
      }
    }

    method Handle(e: Event)
      requires Valid() && frees == 0 && !aborted
      modifies this, replies, reader, reader.rstack
      ensures Valid() && book.fed == old(book.fed) + (if e.ReadBytes? then e.chunk else []) && runs >= old(runs)
      ensures frees == 1 || disconnecting ==>
                err || old(disconnecting) || e == User(Free) || e == User(Disconnect) || Asked(oracle, runs)
      ensures err ==> frees == 1 && (e.ReadFailed? || e.WriteFailed? || StreamOf(book.fed).ending.Failed?
                                     || Spontaneous(book))
      ensures e.ReadFailed? || e.WriteFailed? ==> frees == 1 && err
      ensures e == User(Free) ==> frees == 1 && !err
    {
      hide Kept, Reading, StreamOf, Runs, Linked, Closed, Aborted, Tidy, Reader.Valid, Reader.Rested, Asked,
          Spontaneous;
      match e
      case User(a) => Act(a);
      case ReadBytes(chunk) => HandleRead(Some(chunk));
      case ReadFailed => HandleRead(None);
      case WriteBytes(k) => HandleWrite(Some(k));
      case WriteFailed => HandleWrite(None);
    }

    /** A whole run: events, until the context is gone. It goes only for a reason: it was wanted gone by the user or
        by a callback that ran, reading or writing failed, the bytes read hold a protocol error, or an error reply came
        when every command had been answered. */
    method Drive(events: seq<Event>) returns (n: nat)
      requires Valid() && frees == 0 && !aborted
      modifies this, replies, reader, reader.rstack
      ensures Valid() && n <= |events| && (n < |events| ==> frees > 0 || aborted)
      ensures book.fed == old(book.fed) + ReadIn(events[..n])
      ensures frees == 0 && !aborted ==> book.calls == Runs(book.accepted[..|book.answers|], StreamOf(book.fed).replies)
      ensures frees > 0 ==> frees == 1 && book.answers <= StreamOf(book.fed).replies
                            && book.calls == Runs(book.accepted, book.answers)
      ensures frees == 1 && !old(disconnecting) ==>
                || User(Free) in events[..n] || User(Disconnect) in events[..n] || Asked(oracle, runs)
                || ReadFailed in events[..n] || WriteFailed in events[..n] || StreamOf(book.fed).ending.Failed?
                || (var rs, k := StreamOf(book.fed).replies, |book.accepted|; k < |rs| && rs[k].Error?)
      ensures frees == 0 && !aborted ==>
                && User(Free) !in events[..n] && NoFree(oracle, runs) && StreamOf(book.fed).ending == Waiting
                && ReadFailed !in events[..n] && WriteFailed !in events[..n]
                && |StreamOf(book.fed).replies| <= |book.accepted|
      ensures aborted ==> var rs, k := StreamOf(book.fed).replies, |book.accepted|; k < |rs| && !rs[k].Error?
    {
      hide Kept, Reading, StreamOf, Runs, Linked, Closed, Aborted, Tidy, Valid, Asked, NoFree, Spontaneous;
      n := 0;
      Account();
      while n < |events| && frees == 0 && !aborted
        invariant Valid() && n <= |events| && book.fed == old(book.fed) + ReadIn(events[..n])
        invariant !old(disconnecting) && (frees == 1 || disconnecting) ==>
                    err || User(Free) in events[..n] || User(Disconnect) in events[..n] || Asked(oracle, runs)
        invariant err ==> ReadFailed in events[..n] || WriteFailed in events[..n]
                          || StreamOf(book.fed).ending.Failed? || (frees == 1 && Spontaneous(book))
        invariant frees == 0 && !aborted ==>
                    User(Free) !in events[..n] && ReadFailed !in events[..n] && WriteFailed !in events[..n]
      {
        Account();
        assert events[..n + 1] == events[..n] + [events[n]];
        assert events[..n + 1][..n] == events[..n];
        ghost var before := runs;
        Handle(events[n]);
        if Asked(oracle, before) {
          AskedBefore(oracle, before, runs);
        }
        n := n + 1;
      }
      Account();
    }
  }

  function Least(a: nat, b: nat): nat {
    if a < b then a else b
  }

  function ReadIn(events: seq<Event>): bytes {
    if events == [] then []
    else ReadIn(events[..|events| - 1]) + (var e := events[|events| - 1]; if e.ReadBytes? then e.chunk else [])
  }

  lemma PerformedNothing(b: Book, closed: bool)
    ensures Performed(b, [], closed) == b && !Closes([])
  {
  }

  lemma TookCalls(b: Book, cb: Callback, reply: Option<Reply>)
    ensures |Took(b, cb, reply).calls| == |b.calls| + if cb.hasFn then 1 else 0
  {
  }

  lemma TookNothing(b: Book, cb: Callback)
    ensures var b' := Took(b, cb, None); b' == b.(done := b'.done, calls := b'.calls)
  {
  }

  lemma TookAnswer(b: Book, cb: Callback, r: Reply)
    ensures var b' := Took(b, cb, Some(r));
            b'.answers == b.answers + [r] && |b'.done| == |b.done| + 1 && b'.seen == b.seen && b'.fed == b.fed
            && b'.sent == b.sent && b'.calls == b.calls + if cb.hasFn then [Run(cb, Some(r))] else []
  {
  }

  lemma IssuesNone(b: Book)
    ensures Issues(b, b)
  {
  }

  lemma IssuesOne(b: Book)
    ensures Issues(b, b) && forall cb, cmd :: Issues(b, Issued(b, cb, cmd)) && Issued(b, cb, cmd).calls == b.calls
  {
  }

  lemma IssuesThen(b0: Book, b1: Book, b2: Book)
    requires Issues(b0, b1) && Issues(b1, b2)
    ensures Issues(b0, b2)
  {
  }

  lemma EmptyStream()
    ensures StreamOf([]) == Stream([], Waiting)
  {
  }

  lemma BlankKept()
    ensures Kept(BLANK, [], [])
  {
  }

  lemma EndedHanded(b: Book, err: bool)
    requires b.seen == b.answers || (err && Spontaneous(b))
    ensures Ended(b).seen == Ended(b).answers || (err && Spontaneous(Ended(b)))
  {
  }

  /** The runs due at the end come after those made. */
  lemma EndedCalls(b: Book, waiting: seq<Callback>, obuf: bytes)
    requires Kept(b, waiting, obuf)
    ensures var b' := Ended(b);
            b.calls <= b'.calls && b'.answers == b.answers && b'.seen == b.seen && b'.fed == b.fed && b'.sent == b.sent
  {
    assert b.accepted[..|b.done|] == b.done;
    RunsPrefix(b.accepted, |b.done|, b.answers);
  }

  lemma {:induction false} RunsPrefix(cbs: seq<Callback>, n: nat, rs: seq<Reply>)
    requires n <= |cbs|
    ensures Runs(cbs[..n], rs) <= Runs(cbs, rs)
    decreases |cbs|
  {
    if n == |cbs| {
      assert cbs[..n] == cbs;
    } else {
      RunsPrefix(cbs[..|cbs| - 1], n, rs);
      assert cbs[..|cbs| - 1][..n] == cbs[..n];
    }
  }

  lemma AskedOne(actions: seq<Action>)
    ensures Closes(actions) <==> Free in actions || Disconnect in actions
  {
  }

  lemma AllDone(b0: Book, b: Book, obuf: bytes)
    requires Kept(b, [], obuf)
    ensures b.done == b.accepted && b.calls == Runs(b.accepted, b.answers)
    ensures b == b0.(done := b.done, calls := b.calls) ==> b == Ended(b0)
  {
  }

  lemma FedKept(b: Book, waiting: seq<Callback>, obuf: bytes, fed: bytes)
    requires Kept(b, waiting, obuf)
    ensures Kept(b.(fed := fed), waiting, obuf)
  {
  }

  lemma SeenKept(b: Book, waiting: seq<Callback>, obuf: bytes, r: Reply)
    requires Kept(b, waiting, obuf)
    ensures Kept(b.(seen := b.seen + [r]), waiting, obuf)
  {
  }

  lemma NoneWaiting(b: Book, obuf: bytes)
    requires Kept(b, [], obuf)
    ensures b.done == b.accepted && Ended(b) == b
  {
    hide Runs;
  }

  lemma IssuesKeeps(b: Book, b': Book)
    requires Issues(b, b')
    ensures b' == b.(accepted := b'.accepted, cmds := b'.cmds)
  {
  }

  lemma GetCases(s: State, a: Answer, s': State)
    requires GoodState(s) && s.err == None && GetStep(s, a, s')
    ensures a.failed ==> a.reply.None? && s'.err.Some?
    ensures !a.failed ==> s'.err == None
    ensures a.reply.Some? ==> |s'.pending| < |s.pending|
  {
    hide Resume;
    if a.reply.Some? {
      GetShorter(s, a, s');
    }
  }

  /** Of a context that is gone: every accepted command with a callback has had exactly one run, in the order of the
      commands, the i-th with the i-th reply of the bytes read, or with NULL when there is none for it. */
  lemma EveryCommandAnswered(b: Book, obuf: bytes, s: State)
    requires Kept(b, [], obuf) && Reading(b.fed, b.seen, s)
    requires forall i :: 0 <= i < |b.accepted| ==> b.accepted[i].hasFn
    ensures |b.calls| == |b.accepted| && |b.answers| <= |b.accepted| && |b.answers| <= |StreamOf(b.fed).replies|
    ensures forall i :: 0 <= i < |b.accepted| ==>
              b.calls[i] == Run(b.accepted[i], if i < |b.answers| then Some(StreamOf(b.fed).replies[i]) else None)
  {
    hide StreamOf, Reading;
    ReadingPrefix(b.fed, b.seen, s);
    assert b.done == b.accepted;
    EachRunsOnce(b.accepted, b.answers);
  }
}
