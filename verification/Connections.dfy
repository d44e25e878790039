/**
 * One client connection: its send queue and receive buffer (client/src/client.c,
 * client/src/client_fsm_handlers.c, common/src/shared_strings.c).
 *
 * What the sockets do enters as parameters: how much `send` takes, what `recv` delivers.
 */
module Connections {
  import opened Wrappers
  import opened Strings
  import opened ClientFsm
  import opened Replies

  const BUFSIZE := 1000000

  /** concat_dynamic_strings: a new buffer with the beginnings of both strings. */
  method ConcatDynamicStrings(str1: array?<char>, str2: string, len1: nat, len2: nat) returns (r: array<char>, len: nat)
    requires len1 <= (if str1 == null then 0 else str1.Length) && len2 <= |str2|
    ensures fresh(r) && r[..] == (if str1 == null then "" else str1[..len1]) + str2[..len2] && len == r.Length
  {
    len := len1 + len2;
    r := new char[len];
    if str1 != null {
      forall i | 0 <= i < len1 {
        r[i] := str1[i];
      }
    }
    forall i | 0 <= i < len2 {
      r[len1 + i] := str2[i];
    }
  }

  /** concat_mail_text: null for a text without lines. */
  method ConcatMailText(lines: seq<string>) returns (text: array?<char>)
    ensures lines == [] <==> text == null
    ensures text != null ==> fresh(text) && text[..] == Concat(lines)
  {
    text := null;
    var len := 0;
    for i := 0 to |lines|
      invariant text == null <==> i == 0
      invariant text == null ==> len == 0
      invariant text != null ==> fresh(text) && len == text.Length && text[..] == Concat(lines[..i])
    {
      ConcatOne(lines, i);
      text, len := ConcatDynamicStrings(text, lines[i], len, |lines[i]|);
    }
    assert lines[..|lines|] == lines;
  }

  /** The three calls by which most handlers put a command together. */
  method Compose(head: string, arg: string, tail: string) returns (comm: array<char>)
    ensures fresh(comm) && comm[..] == head + arg + tail
  {
    var newLen;
    comm, newLen := ConcatDynamicStrings(null, head, 0, |head|);
    comm, newLen := ConcatDynamicStrings(comm, arg, newLen, |arg|);
    comm, newLen := ConcatDynamicStrings(comm, tail, newLen, |tail|);
  }

  class Connection {
    const letter: Letter
    const socket: int
    var state: State
    var sendBuf: array<char>
    var receiveBuf: array<char>
    var sended: nat
    var toSend: nat
    var received: nat
    var toReceive: nat
    ghost var wire: string      // everything `send` has taken
    ghost var queued: string    // everything ever put into the send queue
    ghost var arrived: string   // everything `recv` has delivered
    ghost var consumed: string  // the messages taken out of the receive buffer

    ghost predicate Valid()
      reads this, sendBuf, receiveBuf
    {
      && toSend <= sendBuf.Length && toReceive <= receiveBuf.Length && sendBuf != receiveBuf
      && queued == wire + sendBuf[..toSend] && sended == |wire|
      && arrived == consumed + receiveBuf[..toReceive] && received == |consumed|
    }

    ghost function Talk(): Client
      reads this`state, this`queued
    {
      Client(state, queued)
    }

    /** Nothing is lost on the way out or in: the counters add up and the channels hold the front of what was handed over. */
    lemma Conserved()
      requires Valid()
      ensures wire + sendBuf[..toSend] == queued && sended + toSend == |queued|
      ensures consumed + receiveBuf[..toReceive] == arrived && received + toReceive == |arrived|
    {
      assert |queued| == |wire| + toSend;
      assert |arrived| == |consumed| + toReceive;
    }

    // init_connection and connection_start
    constructor (letter: Letter, socket: int)
      ensures Valid() && fresh(sendBuf) && fresh(receiveBuf) && this.letter == letter && this.socket == socket
      ensures Talk() == Client(INIT, "") && wire == "" && arrived == "" && consumed == ""
    {
      this.letter, this.socket := letter, socket;
      state := INIT;
      sendBuf := new char[1024];
      receiveBuf := new char[1024];
      sended, toSend, received, toReceive := 0, 0, 0, 0;
      wire, queued, arrived, consumed := "", "", "", "";
    }

    // ---------- handlers ----------

    // the last lines of every handler that says something
    method Enqueue(next: State, comm: array<char>, writeFS: set<int>) returns (state': State, writeFS': set<int>)
      requires Valid() && state == next
      modifies this`sendBuf, this`toSend, this`queued
      ensures Valid() && fresh(sendBuf) && queued == old(queued) + comm[..] && toSend == old(toSend) + comm.Length
      ensures state' == next && writeFS' == writeFS + {socket}
    {
      var newBuf, newLen := ConcatDynamicStrings(sendBuf, comm[..], toSend, comm.Length);
      sendBuf := newBuf;
      toSend := newLen;
      queued := queued + comm[..];
      state' := next;
      writeFS' := writeFS + {socket};
    }

    /** The state and queue are those of `d`; nothing else about the connection has changed. */
    twostate predicate Moved(d: Client)
      reads this, sendBuf, receiveBuf
    {
      && Valid() && Talk() == d && (sendBuf == old(sendBuf) || fresh(sendBuf))
      && receiveBuf == old(receiveBuf) && received == old(received) && toReceive == old(toReceive)
      && receiveBuf[..] == old(receiveBuf[..])
      && wire == old(wire) && arrived == old(arrived) && consumed == old(consumed)
    }

    method HandleConnect(next: State, writeFS: set<int>) returns (state': State, writeFS': set<int>)
      requires Valid()
      modifies this`state, this`sendBuf, this`toSend, this`queued
      ensures Moved(Client(next, old(queued) + EhloLine())) && state' == next && writeFS' == writeFS + {socket}
    {
      state := next;
      var comm := Compose("EHLO ", DOMAIN, "\r\n");
      state', writeFS' := Enqueue(next, comm, writeFS);
    }

    method HandleEhlo(next: State, writeFS: set<int>) returns (state': State, writeFS': set<int>)
      requires Valid()
      modifies this`state, this`sendBuf, this`toSend, this`queued
      ensures Moved(Client(next, old(queued) + MailLine(letter.from))) && state' == next && writeFS' == writeFS + {socket}
    {
      state := next;
      var comm := Compose("MAIL FROM:<", letter.from, ">\r\n");
      state', writeFS' := Enqueue(next, comm, writeFS);
    }

    method HandleMf(next: State, writeFS: set<int>) returns (state': State, writeFS': set<int>)
      requires Valid()
      modifies this`state, this`sendBuf, this`toSend, this`queued
      ensures Moved(Client(next, old(queued) + RcptLine(letter.to))) && state' == next && writeFS' == writeFS + {socket}
    {
      state := next;
      var comm := Compose("RCPT TO:<", letter.to, ">\r\n");
      state', writeFS' := Enqueue(next, comm, writeFS);
    }

    method HandleRt(next: State, writeFS: set<int>) returns (state': State, writeFS': set<int>)
      requires Valid()
      modifies this`state, this`sendBuf, this`toSend, this`queued
      ensures Moved(Client(next, old(queued) + DATA_LINE)) && state' == next && writeFS' == writeFS + {socket}
    {
      state := next;
      var comm, newLen := ConcatDynamicStrings(null, "DATA", 0, 4);
      comm, newLen := ConcatDynamicStrings(comm, "\r\n", newLen, 2);
      assert comm[..] == DATA_LINE;
      state', writeFS' := Enqueue(next, comm, writeFS);
    }

    method HandleData(next: State, writeFS: set<int>) returns (state': State, writeFS': set<int>)
      requires Valid()
      modifies this`state, this`sendBuf, this`toSend, this`queued
      ensures if letter.text == []
        then Moved(Client(S_ERROR, old(queued))) && state' == S_ERROR && writeFS' == writeFS
        else Moved(Client(next, old(queued) + BodyText(letter.text))) && state' == next && writeFS' == writeFS + {socket}
    {
      state := next;
      var text := ConcatMailText(letter.text);
      if text == null {
        state' := HandleError(S_ERROR);
        return state', writeFS;
      }
      var comm, newLen := ConcatDynamicStrings(null, text[..], 0, text.Length);
      comm, newLen := ConcatDynamicStrings(comm, "\r\n.\r\n", newLen, 5);
      assert comm[..] == BodyText(letter.text);
      state', writeFS' := Enqueue(next, comm, writeFS);
    }

    method HandleQuit(next: State, writeFS: set<int>) returns (state': State, writeFS': set<int>)
      requires Valid()
      modifies this`state, this`sendBuf, this`toSend, this`queued
      ensures Moved(Client(next, old(queued) + QUIT_LINE)) && state' == next && writeFS' == writeFS + {socket}
    {
      state := next;
      var comm, newLen := ConcatDynamicStrings(null, "QUIT\r\n", 0, 6);
      assert comm[..] == QUIT_LINE;
      state', writeFS' := Enqueue(next, comm, writeFS);
    }

    method HandleFinish(next: State) returns (state': State)
      requires Valid()
      modifies this`state
      ensures Moved(Client(next, queued)) && state' == next
    {
      state := next;
      state' := next;
    }

    method HandleError(next: State) returns (state': State)
      requires Valid()
      modifies this`state
      ensures Moved(Client(next, queued)) && state' == next
    {
      state := next;
      state' := next;
    }

    // ---------- client_fsm_step ----------

    static lemma Pieces(m: Letter)
      ensures var p := ScriptOf(m);
        && p.pieces[0] == EhloLine() && p.pieces[1] == MailLine(m.from) && p.pieces[2] == RcptLine(m.to)
        && p.pieces[3] == DATA_LINE && p.pieces[4] == BodyText(m.text) && p.pieces[5] == QUIT_LINE && p.hasText == (m.text != [])
    {
    }

    method ClientFsmStep(e: Event, writeFS: set<int>) returns (next: State, writeFS': set<int>, exited: bool)
      requires Valid()
      modifies this`state, this`sendBuf, this`toSend, this`queued
      ensures Stepped(Advance(ScriptOf(letter), old(Talk()), e), exited)
      ensures writeFS <= writeFS' <= writeFS + {socket} && (queued != old(queued) ==> socket in writeFS')
    {
      Pieces(letter);
      hide Table, ScriptOf, EhloLine, MailLine, RcptLine, BodyText;
      writeFS', exited := writeFS, false;
      if state == INVALID || state == DONE {
        return INIT, writeFS, false;
      }
      var entry := Table(state, e);
      match entry.transition {
        case TR_CONNECT => next, writeFS' := HandleConnect(entry.next, writeFS);
        case TR_DATA => next, writeFS' := HandleData(entry.next, writeFS);
        case TR_EHLO => next, writeFS' := HandleEhlo(entry.next, writeFS);
        case TR_ERROR => next := HandleError(entry.next);
        case TR_FINISH => next := HandleFinish(entry.next);
        case TR_INVALID => next, exited := INVALID, true;
        case TR_MF => next, writeFS' := HandleMf(entry.next, writeFS);
        case TR_QUIT => next, writeFS' := HandleQuit(entry.next, writeFS);
        case TR_RT => next, writeFS' := HandleRt(entry.next, writeFS);
      }
    }

    /** The machine did what `d` says, or the process ended and nothing has changed. */
    twostate predicate Stepped(d: Option<Client>, exited: bool)
      reads this, sendBuf, receiveBuf
    {
      (exited <==> d == None) && Moved(if d.Some? then d.value else old(Talk()))
    }

    // ---------- writing ----------

    // the overlapping memcpy of conn_write
    static method MoveUp(buf: array<char>, len: nat, size: nat)
      requires len + size <= buf.Length
      modifies buf
      ensures buf[..size] == old(buf[len..len + size])
    {
      forall i | 0 <= i < size {
        buf[i] := buf[i + len];
      }
    }

    /** conn_write; `taken` is the answer of `send`. */
    method ConnWrite(taken: int) returns (len: int)
      requires Valid() && -1 <= taken <= toSend && taken <= BUFSIZE
      modifies this`sended, this`toSend, this`wire, sendBuf
      ensures Valid() && len == taken && Talk() == old(Talk())
      ensures wire == old(wire) + if taken < 0 then "" else old(sendBuf[..taken])
      ensures toSend == old(toSend) - if taken < 0 then 0 else taken
    {
      var sendSize := BUFSIZE;
      if toSend < BUFSIZE {
        sendSize := toSend;
      }
      var buf := sendBuf[..sendSize];
      len := taken;
      if len >= 0 {
        var newSize := toSend - len;
        ghost var pending := sendBuf[..toSend];
        Associate(wire, pending[..len], pending[len..]);
        assert pending == pending[..len] + pending[len..] && buf[..len] == pending[..len];
        wire := wire + buf[..len];
        MoveUp(sendBuf, len, newSize);
        sended := sended + len;
        toSend := toSend - len;
      }
    }

    /** process_conn_write */
    method ProcessConnWrite(taken: int, writeFS: set<int>) returns (ret: int, writeFS': set<int>, exited: bool)
      requires Valid() && -1 <= taken <= toSend && taken <= BUFSIZE
      modifies this`state, this`sended, this`toSend, this`wire, this`queued, this`sendBuf, sendBuf
      ensures Valid() && (exited <==> taken < 0 && Advance(ScriptOf(letter), old(Talk()), ERROR) == None)
      ensures taken < 0 && !exited ==> Some(Talk()) == Advance(ScriptOf(letter), old(Talk()), ERROR) && wire == old(wire)
      ensures taken >= 0 ==> Talk() == old(Talk()) && wire == old(wire + sendBuf[..taken]) && toSend == old(toSend) - taken
      ensures exited ==> Talk() == old(Talk()) && wire == old(wire)
      ensures ret == (if taken < 0 then -1 else 0) && writeFS <= writeFS' <= writeFS + {socket}
      ensures taken < 0 && Dialogue(old(state)) ==> state == S_ERROR && queued == old(queued)
    {
      if Dialogue(state) {
        BreaksOff(letter, Talk());
      }
      var len := ConnWrite(taken);
      ret, writeFS', exited := 0, writeFS, false;
      if len < 0 {
        var next;
        next, writeFS', exited := ClientFsmStep(ERROR, writeFS);
        ret := -1;
      }
    }

    // ---------- reading ----------

    /** conn_read; `delivered` is what `recv` has put into its buffer, or nothing on an error. */
    method ConnRead(delivered: Option<string>) returns (len: int)
      requires Valid() && (delivered.Some? ==> |delivered.value| <= BUFSIZE)
      modifies this`receiveBuf, this`toReceive, this`arrived
      ensures Valid() && (receiveBuf == old(receiveBuf) || fresh(receiveBuf))
      ensures len == if delivered.None? then -1 else |delivered.value|
      ensures delivered.None? || delivered.value == "" ==> receiveBuf == old(receiveBuf) && toReceive == old(toReceive)
      ensures receiveBuf[..toReceive] == old(receiveBuf[..toReceive]) + if delivered.Some? then delivered.value else ""
    {
      len := if delivered.None? then -1 else |delivered.value|;
      if len > 0 {
        var newBuf, newLen := ConcatDynamicStrings(receiveBuf, delivered.value, toReceive, len);
        receiveBuf, toReceive := newBuf, newLen;
        arrived := arrived + delivered.value;
      }
    }

    /** try_parse_message_part: the first line, which leaves the buffer. */
    method TryParseMessagePart() returns (message: Option<string>, len: nat)
      requires toReceive <= receiveBuf.Length
      modifies this`toReceive, receiveBuf
      ensures toReceive <= receiveBuf.Length
      ensures message == Line(old(receiveBuf[..toReceive])) && len == if message.None? then 0 else |message.value|
      ensures receiveBuf[..toReceive] == old(receiveBuf[..toReceive])[len..]
    {
      var findEos := FindEos(receiveBuf[..toReceive], 0);
      if findEos.None? {
        return None, 0;
      }
      len := findEos.value + 2;
      message := Some(receiveBuf[..len]);
      assert receiveBuf[..len] == receiveBuf[..toReceive][..len];
      var newSize := toReceive - len;
      toReceive := newSize;
      forall i | 0 <= i < newSize {
        receiveBuf[i] := receiveBuf[len + i];
      }
    }

    /** What is left in the receive buffer. */
    ghost function Unread(): string
      requires toReceive <= receiveBuf.Length
      reads this`receiveBuf, this`toReceive, receiveBuf
    {
      receiveBuf[..toReceive]
    }

    // takes one message and accounts for it, as each turn of the loop in process_conn_read does
    method NextMessage() returns (message: Option<string>)
      requires Valid()
      modifies this`toReceive, this`received, this`consumed, receiveBuf
      ensures Valid() && message == Line(old(Unread()))
      ensures message.None? ==> Unread() == old(Unread()) && consumed == old(consumed)
      ensures message.Some? ==> old(Unread()) == message.value + Unread() && consumed == old(consumed) + message.value
    {
      ghost var was := Unread();
      var len;
      message, len := TryParseMessagePart();
      received := received + len;
      consumed := consumed + was[..len];
    }

    ghost predicate Amid(was: string, start: string, taken: string)
      reads this, sendBuf, receiveBuf
    {
      Valid() && was == taken + Unread() && consumed == start + taken
    }

    /** The loop of process_conn_read: one reply, and the event it stands for. */
    method ReadReply() returns (event: Option<Event>)
      requires Valid() && Readable(Unread())
      modifies this`toReceive, this`received, this`consumed, receiveBuf
      ensures event == Take(old(Unread())).1 && Amid(old(Unread()), old(consumed), Take(old(Unread())).0)
    {
      event := None;
      var signMsg := false;
      ghost var was, start, taken := Unread(), consumed, "";
      assert "" + Take(was).0 == Take(was).0;
      while !signMsg
        invariant receiveBuf == old(receiveBuf) && Amid(was, start, taken)
        invariant if signMsg then Take(was) == (taken, event) else event == None && Between(was, taken, Unread())
        decreases !signMsg, toReceive
      {
        event, signMsg, taken := ReadMessage(was, start, taken);
      }
    }

    // the body of that loop; it also ends when there is nothing to receive
    method ReadMessage(ghost was: string, ghost start: string, ghost taken: string)
      returns (event: Option<Event>, signMsg: bool, ghost taken': string)
      requires Amid(was, start, taken) && Between(was, taken, Unread())
      modifies this`toReceive, this`received, this`consumed, receiveBuf
      ensures Amid(was, start, taken')
      ensures if signMsg then Take(was) == (taken', event)
              else event == None && Between(was, taken', Unread()) && toReceive < old(toReceive)
    {
      event, signMsg, taken' := None, false, taken;
      BetweenStep(was, taken, Unread());
      var message := NextMessage();
      if message.None? {
        signMsg := true;  // "Nothing to receive"
      } else {
        taken' := taken + message.value;
        var res := ProcessMessage(message.value);
        if res < 0 {
          event, signMsg := Some(BAD), true;
        } else if res > 0 {
          event, signMsg := Some(OK), true;
        }
      }
    }

    /** The event that a result of `recv` leads to. */
    static function Raises(unread: string, delivered: Option<string>): Option<Event> {
      if delivered.None? then Some(ERROR)
      else if delivered.value == "" then Some(CONNECTION_LOST)
      else Take(unread + delivered.value).1
    }

    /** process_conn_read: at most one event for whatever `recv` delivered. */
    method ProcessConnRead(delivered: Option<string>, writeFS: set<int>) returns (ret: int, writeFS': set<int>, exited: bool)
      requires Valid() && (delivered.Some? ==> |delivered.value| <= BUFSIZE)
      requires delivered.Some? && delivered.value != "" ==> Readable(Unread() + delivered.value)
      modifies this, sendBuf, receiveBuf
      ensures Valid() && wire == old(wire)
      ensures var event := Raises(old(Unread()), delivered);
        var d := if event.None? then Some(old(Talk())) else Advance(ScriptOf(letter), old(Talk()), event.value);
        (exited <==> d == None) && Talk() == if d.Some? then d.value else old(Talk())
      ensures consumed + Unread() == old(consumed + Unread()) + if delivered.None? then "" else delivered.value
      ensures delivered.None? || delivered.value == "" ==> Unread() == old(Unread())
      ensures delivered.Some? && delivered.value != "" ==>
        old(Unread()) + delivered.value == Take(old(Unread()) + delivered.value).0 + Unread()
      ensures ret == (if delivered.None? then -1 else 0)
      ensures writeFS <= writeFS' <= writeFS + {socket} && (queued != old(queued) ==> socket in writeFS')
      ensures delivered == None && Dialogue(old(state)) ==> state == S_ERROR && queued == old(queued)
      ensures delivered == Some("") && Dialogue(old(state)) ==> state == FINISH && queued == old(queued)
    {
      if Dialogue(state) {
        BreaksOff(letter, Talk());
      }
      writeFS', exited, ret := writeFS, false, 0;
      var event := ReadEvent(delivered);
      if event.Some? {
        var next;
        next, writeFS', exited := ClientFsmStep(event.value, writeFS);
      }
      if delivered.None? {
        ret := -1;
      }
    }

    // everything in process_conn_read before the step of the machine
    method ReadEvent(delivered: Option<string>) returns (event: Option<Event>)
      requires Valid() && (delivered.Some? ==> |delivered.value| <= BUFSIZE)
      requires delivered.Some? && delivered.value != "" ==> Readable(Unread() + delivered.value)
      modifies this`receiveBuf, this`toReceive, this`arrived, this`received, this`consumed, receiveBuf
      ensures Valid() && event == Raises(old(Unread()), delivered) && Talk() == old(Talk())
      ensures consumed + Unread() == old(consumed + Unread()) + if delivered.None? then "" else delivered.value
      ensures delivered.None? || delivered.value == "" ==> Unread() == old(Unread())
      ensures delivered.Some? && delivered.value != "" ==>
        old(Unread()) + delivered.value == Take(old(Unread()) + delivered.value).0 + Unread()
    {
      ghost var was, start := Unread(), consumed;
      var readLen := ConnRead(delivered);
      if readLen < 0 {
        return Some(ERROR);
      } else if readLen == 0 {
        return Some(CONNECTION_LOST);
      }
      ghost var now := Unread();
      event := ReadReply();
      Associate(start, Take(now).0, Unread());
      Associate(start, was, delivered.value);
    }
  }

  /** An error and a lost connection end a dialogue, each in its own way. */
  lemma BreaksOff(m: Letter, c: Client)
    requires Dialogue(c.state)
    ensures Advance(ScriptOf(m), c, ERROR) == Some(Client(S_ERROR, c.queued))
    ensures Advance(ScriptOf(m), c, CONNECTION_LOST) == Some(Client(FINISH, c.queued))
  {
  }

  /** Announcing lines have been taken from `was`; `unread` is left. */
  predicate Between(was: string, taken: string, unread: string) {
    Readable(unread) && Take(was) == (taken + Take(unread).0, Take(unread).1)
  }

  lemma BetweenStep(was: string, taken: string, unread: string)
    requires Between(was, taken, unread)
    ensures match Line(unread)
      case None => Take(was) == (taken, None)
      case Some(line) =>
        var v := ProcessMessage(line);
        if v == 0 then Between(was, taken + line, unread[|line|..])
        else Take(was) == (taken + line, Some(if v < 0 then BAD else OK))
  {
    assert taken + "" == taken;
    if Line(unread).Some? {
      var line := Line(unread).value;
      assert taken + (line + Take(unread[|line|..]).0) == taken + line + Take(unread[|line|..]).0;
    }
  }
}
