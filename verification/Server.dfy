/**
 * What server_start does with one chunk of bytes from a client (server/src/server.c).
 */
module Server {
  import opened Wrappers
  import opened StringUtils
  import opened Strings
  import opened SmtpCommands
  import opened Smtp
  import opened Framing

  /** Line `i` of a run makes the server close the connection. */
  predicate Closes(v: View, ins: seq<Input>, i: nat)
    requires i < |ins|
  {
    var r := Serve(v, "", ins[..i]);
    Step(r.view, ins[i], r.reply).quit
  }

  lemma {:induction false} ConcatNulFree(pieces: seq<string>)
    requires NUL !in Concat(pieces)
    ensures forall i :: 0 <= i < |pieces| ==> NUL !in pieces[i]
  {
    if pieces != [] {
      var r := pieces[..|pieces| - 1];
      assert forall c :: c in Concat(r) || c in pieces[|pieces| - 1] ==> c in Concat(pieces);
      ConcatNulFree(r);
    }
  }

  lemma {:induction false} TotalGrows(pieces: seq<string>, k: nat)
    requires k <= |pieces|
    ensures Total(pieces[..k]) <= Total(pieces)
  {
    if k < |pieces| {
      TotalGrows(pieces[..|pieces| - 1], k);
      assert pieces[..|pieces| - 1][..k] == pieces[..k];
    } else {
      assert pieces[..k] == pieces;
    }
  }

  lemma OneMore(pieces: seq<string>, k: nat)
    requires k < |pieces|
    ensures Concat(pieces[..k + 1]) == Concat(pieces[..k]) + pieces[k]
    ensures |Concat(pieces[..k + 1])| <= Total(pieces)
  {
    assert pieces[..k + 1] == pieces[..k] + [pieces[k]];
    ConcatLast(pieces[..k], pieces[k]);
    ConcatTotal(pieces[..k + 1]);
    TotalGrows(pieces, k + 1);
  }

  // list_foreach over the buffered pieces, with strcat
  method AppendPieces(s: Session, command: array<char>)
    requires s.Valid() && NUL !in Concat(s.Fragments())
    requires Terminated(command[..], 0) && Text(command[..], 0) == "" && Total(s.Fragments()) < command.Length
    modifies command
    ensures Terminated(command[..], 0) && Text(command[..], 0) == Concat(s.Fragments())
  {
    s.BufferHead();
    ConcatNulFree(s.Fragments());
    ghost var links, texts := s.ledger.buffer.links, s.Fragments();
    var line := s.buffer;
    ghost var k := 0;
    while line != null
      invariant 0 <= k <= |links| == |texts| && s.Valid() && forall i :: 0 <= i < |texts| ==> NUL !in texts[i]
      invariant line == if k < |links| then links[k] else null
      invariant Terminated(command[..], 0) && Text(command[..], 0) == Concat(texts[..k])
      decreases |links| - k
    {
      s.BufferLine(k);
      OneMore(texts, k);
      StrCat(command, line.item);
      line := if line.next != s.buffer then line.next else null;
      k := k + 1;
    }
    assert texts[..|links|] == texts;
  }

  /** The buffered pieces and the new one fill the allocated command exactly, up to its terminator. */
  method AssembleCommand(s: Session, piece: string) returns (command: array<char>)
    requires s.Valid() && NUL !in Concat(s.Fragments()) && NUL !in piece
    ensures fresh(command) && Terminated(command[..], 0)
    ensures Text(command[..], 0) == Concat(s.Fragments()) + piece && command.Length == |Text(command[..], 0)| + 1
  {
    var size := |piece| + s.bufferSize;
    command := new char[size + 1](i => NUL);
    TextIs(command[..], 0, "");
    ConcatTotal(s.Fragments());
    AppendPieces(s, command);
    StrCat(command, piece);
  }

  // ---------- the loop over one chunk ----------

  lemma FeedNone(tail: string, s: string)
    requires Crlf(s).None?
    ensures Feed(tail, s) == ([], tail + s)
  {
  }

  lemma FeedSome(tail: string, s: string, k: nat)
    requires Crlf(s) == Some(k)
    ensures k + 2 <= |s|
    ensures Feed(tail, s) == ([tail + s[..k]] + Feed("", s[k + 2..]).0, Feed("", s[k + 2..]).1)
  {
    var (lines, rest) := Cut(s[k + 2..]);
    assert Cut(s) == ([s[..k]] + lines, rest);
    assert ([s[..k]] + lines)[1..] == lines;
    assert "" + rest == rest;
    assert [tail + s[..k]] + [] == [tail + s[..k]];
    if lines != [] {
      assert "" + lines[0] == lines[0];
      assert [lines[0]] + lines[1..] == lines;
    }
  }

  /** From state `v`, all of `ins` has been carried out and `rest` is buffered. */
  ghost predicate ServedAll(v: View, ins: seq<Input>, rest: string, view: View, tail: string, sent: seq<string>, saved: seq<Envelope>, closed: bool) {
    && Serve(v, "", ins).(reply := "") == Served(view, "", sent, saved) && tail == rest
    && (closed <==> exists i :: 0 <= i < |ins| && Closes(v, ins, i))
  }

  /** Nothing follows a command that closes the connection. */
  predicate QuitIsLast(v: View, ins: seq<Input>, rest: string) {
    forall i :: 0 <= i < |ins| && Closes(v, ins, i) ==> i == |ins| - 1 && rest == ""
  }

  /** What one chunk asks for: the commands, how they are read, and the remainder. */
  datatype Job = Job(start: View, commands: seq<string>, ins: seq<Input>, rest: string)

  function JobOf(start: View, tail: string, chunk: string): Job {
    var (commands, rest) := Feed(tail, chunk);
    Job(start, commands, Inputs(commands), rest)
  }

  /** Midway through a chunk: `done` commands are carried out, `tail` is buffered, `left` is still to come. */
  datatype Midway = Midway(done: seq<string>, tail: string, left: string, served: Served, closed: bool)
  {
    ghost predicate Of(job: Job) {
      && job.commands == done + Feed(tail, left).0 && job.rest == Feed(tail, left).1 && |job.ins| == |job.commands|
      && served == Serve(job.start, "", job.ins[..|done|])
      && (closed <==> exists i :: 0 <= i < |done| && Closes(job.start, job.ins, i))
    }

    /** The bookkeeping agrees with the session. */
    predicate Reached(view: View, pending: string, reply: string, sent: seq<string>, closed: bool) {
      served == Served(view, reply, sent, served.saved) && tail == pending && this.closed == closed
    }

    function Next(o: Outcome): Midway
      requires Crlf(left).Some?
    {
      var k := Crlf(left).value;
      Midway(done + [tail + left[..k]], "", left[k + 2..], served.Then(o), closed || o.quit)
    }
  }

  function Start(v: View, tail: string, chunk: string): Midway {
    Midway([], tail, chunk, Served(v, "", [], []), false)
  }

  lemma MidwayStart(v: View, tail: string, chunk: string)
    ensures Start(v, tail, chunk).Of(JobOf(v, tail, chunk))
  {
    assert [] + Feed(tail, chunk).0 == Feed(tail, chunk).0;
  }

  lemma MidwayStep(job: Job, w: Midway, o: Outcome)
    requires job.ins == Inputs(job.commands) && w.Of(job) && Crlf(w.left).Some?
    requires o == Process(w.served.view, w.tail + w.left[..Crlf(w.left).value], w.served.reply)
    ensures w.Next(o).Of(job)
  {
    var n := |w.done|;
    MidwayLine(job, w);
    InputsAt(job.commands, n);
    MidwayNext(job, w, o);
  }

  lemma MidwayLine(job: Job, w: Midway)
    requires w.Of(job) && Crlf(w.left).Some?
    ensures var k := Crlf(w.left).value;
      var c := w.tail + w.left[..k];
      && |w.done| < |job.commands| && job.commands[|w.done|] == c
      && job.commands == w.done + [c] + Feed("", w.left[k + 2..]).0 && job.rest == Feed("", w.left[k + 2..]).1
  {
    var k := Crlf(w.left).value;
    var c := w.tail + w.left[..k];
    FeedSome(w.tail, w.left, k);
    assert w.done + ([c] + Feed("", w.left[k + 2..]).0) == w.done + [c] + Feed("", w.left[k + 2..]).0;
  }

  lemma MidwayNext(job: Job, w: Midway, o: Outcome)
    requires w.Of(job) && Crlf(w.left).Some? && |w.done| < |job.commands|
    requires var k := Crlf(w.left).value;
      && job.commands == w.done + [w.tail + w.left[..k]] + Feed("", w.left[k + 2..]).0
      && job.rest == Feed("", w.left[k + 2..]).1
    requires o == Step(w.served.view, job.ins[|w.done|], w.served.reply)
    ensures w.Next(o).Of(job)
  {
    var n := |w.done|;
    ServedNext(job, n, w.served, o);
    ClosedNext(job, n, w.closed, w.served, o);
  }

  lemma ServedNext(job: Job, n: nat, served: Served, o: Outcome)
    requires n < |job.ins| && served == Serve(job.start, "", job.ins[..n]) && o == Step(served.view, job.ins[n], served.reply)
    ensures Serve(job.start, "", job.ins[..n + 1]) == served.Then(o)
  {
    ServeLast(job.start, "", job.ins[..n], job.ins[n]);
    assert job.ins[..n + 1] == job.ins[..n] + [job.ins[n]];
  }

  lemma ClosedNext(job: Job, n: nat, closed: bool, served: Served, o: Outcome)
    requires n < |job.ins| && served == Serve(job.start, "", job.ins[..n]) && o == Step(served.view, job.ins[n], served.reply)
    requires closed <==> exists i :: 0 <= i < n && Closes(job.start, job.ins, i)
    ensures closed || o.quit <==> exists i :: 0 <= i < n + 1 && Closes(job.start, job.ins, i)
  {
    assert Closes(job.start, job.ins, n) <==> o.quit;
  }

  /** Without a line end the rest of the chunk is buffered. */
  lemma MidwayKeep(job: Job, w: Midway)
    requires w.Of(job) && Crlf(w.left).None?
    ensures w.(tail := w.tail + w.left, left := "").Of(job)
  {
    FeedNone(w.tail, w.left);
    FeedNone(w.tail + w.left, "");
    assert w.tail + w.left + "" == w.tail + w.left;
  }

  /** While there is something left, the session is still open. */
  lemma MidwayOpen(job: Job, w: Midway)
    requires w.Of(job) && QuitIsLast(job.start, job.ins, job.rest) && w.left != ""
    ensures !w.closed
  {
    if Crlf(w.left).Some? {
      MidwayLine(job, w);
    } else {
      FeedNone(w.tail, w.left);
    }
  }

  lemma MidwayEnd(job: Job, w: Midway)
    requires w.Of(job) && w.left == ""
    ensures ServedAll(job.start, job.ins, job.rest, w.served.view, w.tail, w.served.sent, w.served.saved, w.closed)
  {
    FeedNone(w.tail, "");
    assert w.done + [] == w.done && w.tail + "" == w.tail;
    assert job.ins[..|w.done|] == job.ins;
  }

  method ServeCommand(s: Session, piece: string, before: string) returns (reply: string, ret: int, ghost saved: Option<Envelope>)
    requires s.Valid() && NUL !in Concat(s.Fragments()) && NUL !in piece
    modifies s, s.Live()`next, s.Live()`prev
    ensures s.Valid() && s.Fragments() == [] && fresh(s.Live() - old(s.Live()))
    ensures Process(old(s.Contents()), old(Concat(s.Fragments())) + piece, before) == Outcome(s.Contents(), reply, ret < 0, saved)
  {
    hide Process, Concat, InputOf;
    var command := AssembleCommand(s, piece);
    reply, ret, saved := s.SmtpProcessCommand(command, before);
  }

  method FindCrlf(s: string) returns (r: Option<nat>)
    ensures r == Crlf(s) && (r.Some? ==> r.value + 2 <= |s|)
  {
    r := StrCrlf(s);
    FirstUnique(s, Seen, r, Crlf(s));
  }

  // what is left without a line end
  method KeepPiece(s: Session, piece: string)
    requires s.Valid() && NUL !in Concat(s.Fragments()) && NUL !in piece
    modifies s, s.Live()`next, s.Live()`prev
    ensures s.Valid() && s.Contents() == old(s.Contents()) && fresh(s.Live() - old(s.Live()))
    ensures Concat(s.Fragments()) == old(Concat(s.Fragments())) + piece && NUL !in Concat(s.Fragments())
  {
    ConcatLast(s.Fragments(), piece);
    s.AddFragment(piece);
  }

  method HandleChunk(s: Session, chunk: string) returns (sent: seq<string>, closed: bool, ghost saved: seq<Envelope>)
    requires s.Valid() && NUL !in Concat(s.Fragments()) && NUL !in chunk
    requires var job := JobOf(s.Contents(), Concat(s.Fragments()), chunk); QuitIsLast(job.start, job.ins, job.rest)
    modifies s, s.Live()`next, s.Live()`prev
    ensures s.Valid() && NUL !in Concat(s.Fragments()) && fresh(s.Live() - old(s.Live()))
    ensures var job := old(JobOf(s.Contents(), Concat(s.Fragments()), chunk));
      ServedAll(job.start, job.ins, job.rest, s.Contents(), Concat(s.Fragments()), sent, saved, closed)
  {
    ghost var job := JobOf(s.Contents(), Concat(s.Fragments()), chunk);
    MidwayStart(s.Contents(), Concat(s.Fragments()), chunk);
    ghost var w;
    sent, closed, w := ServeLines(s, chunk, job);
    MidwayEnd(job, w);
    saved := w.served.saved;
  }

  /** The loop invariant of the read loop; `w` stands at `start`. */
  ghost predicate Standing(s: Session, w: Midway, job: Job, left: string,
                           reply: string, sent: seq<string>, closed: bool)
    reads s, s.Live()`next, s.Live()`prev, s.Live()`item
  {
    && s.Valid() && NUL !in Concat(s.Fragments())
    && w.Of(job) && w.left == left && w.Reached(s.Contents(), Concat(s.Fragments()), reply, sent, closed)
  }

  // the loop over the lines of a chunk
  method ServeLines(s: Session, chunk: string, ghost job: Job)
    returns (sent: seq<string>, closed: bool, ghost w: Midway)
    requires s.Valid() && NUL !in Concat(s.Fragments()) && NUL !in chunk && job.ins == Inputs(job.commands)
    requires Start(s.Contents(), Concat(s.Fragments()), chunk).Of(job) && QuitIsLast(job.start, job.ins, job.rest)
    modifies s, s.Live()`next, s.Live()`prev
    ensures Standing(s, w, job, "", w.served.reply, sent, closed) && fresh(s.Live() - old(s.Live()))
  {
    hide Feed, Serve, Closes, Concat;
    var reply, start := "", 0;
    sent, closed := [], false;
    w := Start(s.Contents(), Concat(s.Fragments()), chunk);
    while start < |chunk|
      invariant 0 <= start <= |chunk| && fresh(s.Live() - old(s.Live()))
      invariant Standing(s, w, job, chunk[start..], reply, sent, closed)
      decreases |chunk| - start
    {
      MidwayOpen(job, w);
      start, reply, sent, closed, w := ServeNext(s, chunk, start, reply, sent, closed, job, w);
    }
  }

  // one complete line: assemble, process, reply
  method ServeLine(s: Session, piece: string, before: string, ghost left: string, ghost sent: seq<string>, ghost closed: bool,
                   ghost job: Job, ghost w: Midway)
    returns (reply: string, ret: int, ghost w': Midway)
    requires job.ins == Inputs(job.commands) && Standing(s, w, job, left, before, sent, closed)
    requires NUL !in piece && Crlf(left).Some? && piece == left[..Crlf(left).value]
    modifies s, s.Live()`next, s.Live()`prev
    ensures fresh(s.Live() - old(s.Live()))
    ensures Standing(s, w', job, left[Crlf(left).value + 2..], reply, sent + [reply], closed || ret < 0)
  {
    ghost var whole;
    reply, ret, whole := ServeCommand(s, piece, before);
    MidwayStep(job, w, Outcome(s.Contents(), reply, ret < 0, whole));
    w' := w.Next(Outcome(s.Contents(), reply, ret < 0, whole));
  }

  // the last piece of a chunk, which has no line end
  method ServeTail(s: Session, piece: string, ghost reply: string, ghost sent: seq<string>, ghost closed: bool,
                   ghost job: Job, ghost w: Midway)
    returns (ghost w': Midway)
    requires NUL !in piece && Crlf(piece).None? && Standing(s, w, job, piece, reply, sent, closed)
    modifies s, s.Live()`next, s.Live()`prev
    ensures fresh(s.Live() - old(s.Live())) && Standing(s, w', job, "", reply, sent, closed)
  {
    MidwayKeep(job, w);
    KeepPiece(s, piece);
    w' := w.(tail := w.tail + w.left, left := "");
  }

  lemma Slices(chunk: string, start: nat)
    requires NUL !in chunk && start <= |chunk|
    ensures NUL !in chunk[start..] && chunk[|chunk|..] == ""
    ensures forall k :: 0 <= k && start + k + 2 <= |chunk| ==> NUL !in chunk[start..][..k] && chunk[start..][k + 2..] == chunk[start + k + 2..]
  {
  }

  // the body of that loop; a piece without a line end is the last
  method ServeNext(s: Session, chunk: string, start: nat, before: string, sent: seq<string>, closed: bool,
                   ghost job: Job, ghost w: Midway)
    returns (next: nat, reply: string, sent': seq<string>, closed': bool, ghost w': Midway)
    requires !closed  // the session is not freed
    requires job.ins == Inputs(job.commands)
    requires NUL !in chunk && start < |chunk| && Standing(s, w, job, chunk[start..], before, sent, closed)
    modifies s, s.Live()`next, s.Live()`prev
    ensures start < next <= |chunk| && fresh(s.Live() - old(s.Live()))
    ensures Standing(s, w', job, chunk[next..], reply, sent', closed')
  {
    hide Standing, Crlf;
    sent', closed' := sent, closed;
    Slices(chunk, start);
    var end := FindCrlf(chunk[start..]);
    if end.None? {
      w' := ServeTail(s, chunk[start..], before, sent, closed, job, w);
      next, reply := |chunk|, before;
    } else {
      var ret;
      reply, ret, w' := ServeLine(s, chunk[start..][..end.value], before, chunk[start..], sent, closed, job, w);
      next := start + end.value + 2;
      sent' := sent + [reply];
      if ret < 0 {
        closed' := true;
      }
    }
  }
}
