/**
 * The objects of both programs take the steps of `Composition`: what `Connection` and `Session` do on
 * the heap is what the composed machine does.
 */
module Pairs {
  import opened Wrappers
  import opened Strings
  import opened StringUtils
  import opened SmtpCommands
  import opened Smtp
  import opened Server
  import opened Replies
  import opened Connections
  import opened Composition
  import C = ClientFsm

  class Pair {
    const conn: Connection
    const session: Session
    var c2s: string
    var s2c: string
    var closed: bool
    var exited: bool
    ghost var saved: seq<Envelope>

    ghost predicate Valid()
      reads this, conn, conn.sendBuf, conn.receiveBuf, session
      reads session.Live()`next, session.Live()`prev, session.Live()`item
    {
      conn.Valid() && session.Valid() && NUL !in Concat(session.Fragments()) && NUL !in c2s
    }

    ghost function Whole(): Joint
      requires conn.toSend <= conn.sendBuf.Length && conn.toReceive <= conn.receiveBuf.Length
      reads this, conn, conn.sendBuf, conn.receiveBuf, session
    {
      Joint(conn.Talk(), conn.sendBuf[..conn.toSend], c2s, s2c, conn.Unread(), session.Contents(), Concat(session.Fragments()),
            saved, closed, exited)
    }

    // a client connects, and the server greets it
    constructor (letter: C.Letter, socket: int)
      ensures Valid() && conn.letter == letter && Whole() == Init()
    {
      conn := new Connection(letter, socket);
      session := new Session();
      c2s, s2c, closed, exited, saved := "", "220\r\n", false, false, [];
    }

    /** process_conn_write takes the step `Writes`. */
    method ClientWrites(n: nat)
      requires Valid() && C.Running(conn.state) && 0 < n <= conn.toSend && n <= BUFSIZE && NUL !in conn.sendBuf[..n]
      modifies this`c2s, conn, conn.sendBuf
      ensures Valid() && Writes(old(Whole()), Whole(), n)
    {
      hide Concat, Session.Linked, Total;
      ghost var before := conn.sendBuf[..conn.toSend];
      ghost var wire := conn.wire;
      var bytes := conn.sendBuf[..n];
      var ret, fs, out := conn.ProcessConnWrite(n, {});
      Dropped(wire, before, conn.sendBuf[..conn.toSend], n);
      c2s := c2s + bytes;
    }

    ghost function Task(n: nat): Job
      requires n <= |c2s|
      reads this`c2s, session
    {
      JobOf(session.Contents(), Concat(session.Fragments()), c2s[..n])
    }

    method HandleNext(n: nat) returns (sent: seq<string>, done: bool, ghost now: seq<Envelope>)
      requires Valid() && n <= |c2s|
      requires QuitIsLast(Task(n).start, Task(n).ins, Task(n).rest)
      modifies session, session.Live()`next, session.Live()`prev
      ensures Valid()
      ensures var job := old(Task(n));
        ServedAll(job.start, job.ins, job.rest, session.Contents(), Concat(session.Fragments()), sent, now, done)
    {
      NulParts(c2s, n);
      sent, done, now := HandleChunk(session, c2s[..n]);
    }

    // the channels after `n` bytes have been read and `answer` has been sent
    method Advance(n: nat, answer: string, done: bool, ghost now: seq<Envelope>)
      requires Valid() && n <= |c2s|
      modifies this`c2s, this`s2c, this`closed, this`saved
      ensures Valid()
      ensures Whole() == old(Whole()).(c2s := old(c2s)[n..], s2c := old(s2c) + answer, closed := done, saved := old(saved) + now)
    {
      NulParts(c2s, n);
      c2s, s2c, closed, saved := c2s[n..], s2c + answer, done, saved + now;
    }

    /** One chunk of server_start takes the step `Serves`. */
    method ServerServes(n: nat)
      requires Valid() && !closed && 0 < n <= |c2s| && n <= READ_MAX
      requires !Framing.Severs(c2s[..n], c2s[n..] + conn.sendBuf[..conn.toSend])
      requires QuitIsLast(Task(n).start, Task(n).ins, Task(n).rest)
      modifies this`c2s, this`s2c, this`closed, this`saved, session, session.Live()`next, session.Live()`prev
      ensures Valid() && Serves(old(Whole()), Whole(), n)
    {
      ghost var j, job := Whole(), Task(n);
      var sent, done;
      ghost var now;
      sent, done, now := HandleNext(n);
      Advance(n, Concat(sent), done, now);
      ServesFrom(j, Whole(), n, job, sent, now);
    }

    /** process_conn_read takes the step `Hears`. */
    method ClientHears(n: nat)
      requires Valid() && !exited && 0 < n <= |s2c| && n <= BUFSIZE && Readable(conn.Unread() + s2c[..n])
      modifies this`s2c, this`exited, conn, conn.sendBuf, conn.receiveBuf
      ensures Valid() && Hears(conn.letter, old(Whole()), Whole(), n)
    {
      hide Take, Readable, C.Advance, C.ScriptOf, Hears, Concat, Session.Linked, Total;
      ghost var j := Whole();
      ghost var wire := conn.wire;
      var ret, fs, out := conn.ProcessConnRead(Some(s2c[..n]), {});
      exited := out;
      s2c := s2c[n..];
      HearsFrom(conn.letter, j, Whole(), n, wire);
    }

    /** process_conn_read on a closed connection takes the step `Misses`. */
    method ClientMisses()
      requires Valid() && !exited && closed && s2c == ""
      modifies this`exited, conn, conn.sendBuf, conn.receiveBuf
      ensures Valid() && Misses(conn.letter, old(Whole()), Whole())
    {
      hide Take, Readable, C.Advance, C.ScriptOf, Misses, Concat, Session.Linked, Total;
      ghost var j := Whole();
      ghost var wire := conn.wire;
      var ret, fs, out := conn.ProcessConnRead(Some(""), {});
      exited := out;
      MissesFrom(conn.letter, j, Whole(), wire);
    }
  }

  lemma ServesFrom(j: Joint, j': Joint, n: nat, job: Job, sent: seq<string>, now: seq<Envelope>)
    requires !j.closed && 0 < n <= |j.c2s| && n <= READ_MAX && !Framing.Severs(j.c2s[..n], j.c2s[n..] + j.pending)
    requires job == JobOf(j.view, j.tail, j.c2s[..n]) && QuitIsLast(job.start, job.ins, job.rest)
    requires ServedAll(job.start, job.ins, job.rest, j'.view, j'.tail, sent, now, j'.closed)
    requires j' == j.(c2s := j.c2s[n..], view := j'.view, tail := j'.tail, s2c := j.s2c + Concat(sent), saved := j.saved + now, closed := j'.closed)
    ensures Serves(j, j', n)
  {
    assert Serve(j.view, "", job.ins).sent == sent;
  }

  lemma HearsFrom(m: C.Letter, j: Joint, j': Joint, n: nat, wire: string)
    requires 0 < n <= |j.s2c| && Readable(j.unread + j.s2c[..n]) && !j.exited
    requires j.client.queued == wire + j.pending && j'.client.queued == wire + j'.pending
    requires var (taken, e) := Take(j.unread + j.s2c[..n]);
      var d := if e.None? then Some(j.client) else C.Advance(C.ScriptOf(m), j.client, e.value);
      && j.unread + j.s2c[..n] == taken + j'.unread
      && (j'.exited <==> d == None) && j'.client == if d.Some? then d.value else j.client
    requires j' == j.(client := j'.client, pending := j'.pending, s2c := j.s2c[n..], unread := j'.unread, exited := j'.exited)
    ensures Hears(m, j, j', n)
  {
    var (taken, e) := Take(j.unread + j.s2c[..n]);
    assert (taken + j'.unread)[|taken|..] == j'.unread;
    Queued(m, j.client, e);
    var k := |j.client.queued|;
    assert j'.client.queued[..k] == j.client.queued;
    assert j'.pending == (wire + j'.pending)[|wire|..] && j.pending == (wire + j.pending)[|wire|..];
    assert j'.client.queued[|wire|..] == j'.client.queued[..k][|wire|..] + j'.client.queued[k..];
  }

  lemma MissesFrom(m: C.Letter, j: Joint, j': Joint, wire: string)
    requires j.closed && j.s2c == "" && !j.exited
    requires j.client.queued == wire + j.pending && j'.client.queued == wire + j'.pending
    requires var d := C.Advance(C.ScriptOf(m), j.client, C.CONNECTION_LOST);
      (j'.exited <==> d == None) && j'.client == if d.Some? then d.value else j.client
    requires j' == j.(client := j'.client, pending := j'.pending, exited := j'.exited)
    ensures Misses(m, j, j')
  {
    var k := |j.client.queued|;
    Queued(m, j.client, Some(C.CONNECTION_LOST));
    assert j'.client.queued[..k] == j.client.queued;
    assert j'.pending == (wire + j'.pending)[|wire|..] && j.pending == (wire + j.pending)[|wire|..];
    assert j'.client.queued[|wire|..] == j'.client.queued[..k][|wire|..] + j'.client.queued[k..];
  }

  lemma NulParts(s: string, n: nat)
    requires n <= |s| && NUL !in s
    ensures NUL !in s[..n] && NUL !in s[n..]
  {
  }

  /** The queue is only ever extended. */
  lemma Queued(m: C.Letter, c: C.Client, e: Option<C.Event>)
    ensures var d := if e.None? then Some(c) else C.Advance(C.ScriptOf(m), c, e.value);
      d.Some? ==> c.queued <= d.value.queued
  {
  }

  lemma Dropped(wire: string, before: string, now: string, n: nat)
    requires n <= |before| && wire + before == wire + before[..n] + now
    ensures now == before[n..]
  {
    assert wire + before == (wire + before[..n]) + before[n..];
    assert now == (wire + before[..n] + now)[|wire| + n..];
    assert before[n..] == ((wire + before[..n]) + before[n..])[|wire| + n..];
  }
}
