/**
 * The session of server/src/smtp.c on its three rings of lines.
 */
module Smtp {
  import opened Wrappers
  import opened Rings
  import opened StringUtils
  import opened Strings
  import opened MailGrammar
  import opened SmtpCommands
  import opened Lines

  function Total(pieces: seq<string>): nat {
    if pieces == [] then 0 else Total(pieces[..|pieces| - 1]) + |pieces[|pieces| - 1]|
  }

  lemma {:induction false} ConcatTotal(pieces: seq<string>)
    ensures |Concat(pieces)| == Total(pieces)
  {
    if pieces != [] {
      ConcatTotal(pieces[..|pieces| - 1]);
    }
  }

  /** The allocated lines of a session and its three rings. */
  datatype Ledger = Ledger(store: Store, buffer: Chain, recipients: Chain, data: Chain)

  lemma GrownBuffer(o: Ledger, m: Store, d: Chain, line: Line)
    requires Partition(o.store, o.buffer, o.recipients, o.data) && Joined(o.store, m, o.buffer, d, line)
    ensures Partition(m, d, o.recipients, o.data)
  {
    Grown(o.store, m, o.buffer, d, o.recipients, o.data, line);
  }

  lemma GrownRecipients(o: Ledger, m: Store, d: Chain, line: Line)
    requires Partition(o.store, o.buffer, o.recipients, o.data) && Joined(o.store, m, o.recipients, d, line)
    ensures Partition(m, o.buffer, d, o.data)
  {
    Grown(o.store, m, o.recipients, d, o.data, o.buffer, line);
  }

  lemma GrownData(o: Ledger, m: Store, d: Chain, line: Line)
    requires Partition(o.store, o.buffer, o.recipients, o.data) && Joined(o.store, m, o.data, d, line)
    ensures Partition(m, o.buffer, o.recipients, d)
  {
    Grown(o.store, m, o.data, d, o.buffer, o.recipients, line);
  }

  lemma TotalLast(pieces: seq<string>, text: string)
    ensures Total(pieces + [text]) == Total(pieces) + |text|
  {
    assert (pieces + [text])[..|pieces|] == pieces;
  }

  class Session {
    var buffer: Link?<string>
    var bufferSize: nat
    var state: State
    var recipients: Link?<string>
    var data: Link?<string>
    var from: Option<string>
    ghost var ledger: Ledger

    /** `m` mirrors the fields of the allocated lines. */
    static ghost predicate InSync(m: Store)
      reads m.Keys`next, m.Keys`prev, m.Keys`item
    {
      && (forall l <- m.Keys {:trigger l.next} :: Get(m, l).next == l.next)
      && (forall l <- m.Keys {:trigger l.prev} :: Get(m, l).prev == l.prev)
      && (forall l <- m.Keys {:trigger l.item} :: Get(m, l).text == l.item)
    }

    static ghost predicate OnRing(c: Chain)
      reads c.links
    {
      IsRing(c.links) && |c.texts| == |c.links| && forall i :: 0 <= i < |c.links| ==> c.links[i].item == c.texts[i]
    }

    ghost predicate Linked()
      reads this`buffer, this`recipients, this`data, this`ledger
      reads ledger.store.Keys`next, ledger.store.Keys`prev, ledger.store.Keys`item
    {
      && InSync(ledger.store)
      && Partition(ledger.store, ledger.buffer, ledger.recipients, ledger.data)
      && buffer == ledger.buffer.Head() && recipients == ledger.recipients.Head() && data == ledger.data.Head()
    }

    ghost predicate Valid()
      reads this, ledger.store.Keys`next, ledger.store.Keys`prev, ledger.store.Keys`item
    {
      Linked() && bufferSize == Total(ledger.buffer.texts)
    }

    ghost function Contents(): View
      reads this`state, this`from, this`ledger
    {
      View(state, Envelope(from, ledger.recipients.texts, ledger.data.texts))
    }

    /** The pieces of the unfinished command. */
    ghost function Fragments(): seq<string>
      reads this`ledger
    {
      ledger.buffer.texts
    }

    ghost function Live(): set<Line>
      reads this`ledger
    {
      ledger.store.Keys
    }

    lemma BufferHead()
      requires Valid()
      ensures |ledger.buffer.links| == |Fragments()|
      ensures buffer == if Fragments() == [] then null else ledger.buffer.links[0]
    {
    }

    /** Without an unfinished command nothing is allocated exactly if nothing is stored in the envelope. */
    lemma LiveIsStored()
      requires Valid() && Fragments() == []
      ensures Live() == {} <==> Contents().envelope.recipients == [] && Contents().envelope.data == []
    {
      EmptyChain(ledger.buffer);
      EmptyChain(ledger.recipients);
      EmptyChain(ledger.data);
    }

    static lemma EmptyChain(c: Chain)
      requires |c.links| == |c.texts|
      ensures c.Members() == {} <==> c.texts == []
    {
      assert c.links != [] ==> c.links[0] in c.Members();
    }

    lemma BufferLine(k: nat)
      requires Valid() && k < |ledger.buffer.links|
      ensures var links := ledger.buffer.links;
        && links[k].item == Fragments()[k]
        && if links[k].next != buffer then k + 1 < |links| && links[k].next == links[k + 1] else k + 1 == |links|
    {
      DistinctMeans(ledger.buffer.links);
      assert ledger.buffer.links[k] in ledger.buffer.Members();
      assert Get(ledger.store, ledger.buffer.links[k]).text == Fragments()[k];
    }

    // ---------- allocation ----------

    function Next(l: Line): Link?<string>
      requires l in ledger.store
      reads this`ledger, l`next
    {
      l.next
    }

    ghost method Free(l: Line)
      requires l in ledger.store && InSync(ledger.store)
      modifies this`ledger
      ensures ledger == old(ledger).(store := old(ledger).store - {l}) && InSync(ledger.store)
    {
      ledger := ledger.(store := ledger.store - {l});
    }

    // free_smtp_lines: frees each line of the ring once and reads no link of a freed one
    method FreeSmtpLines(first: Line, ghost ring: Chain)
      requires InSync(ledger.store) && Held(ledger.store, ring) && first == ring.Head()
      modifies this`ledger
      ensures InSync(ledger.store) && ledger == old(ledger).(store := old(ledger).store - ring.Members())
    {
      var head: Link?<string> := first;
      ghost var links := ring.links;
      DistinctMeans(links);
      assert forall i :: 0 <= i < |links| ==> links[i] in ring.Members();
      var next := Next(first);
      ghost var k := 0;
      while head != null
        invariant 0 <= k <= |links| && InSync(ledger.store)
        invariant ledger == old(ledger).(store := old(ledger).store - Elements(links[..k]))
        invariant if head == null then k == |links| else k < |links| && head == links[k] && next == After(links, k)
        decreases |links| - k
      {
        assert Elements(links[..k + 1]) == Elements(links[..k]) + {links[k]};
        Free(head);
        if next != first {
          head := next;
          next := Next(next);
          assert next == Get(old(ledger).store, links[k + 1]).next;
        } else {
          head := null;
        }
        k := k + 1;
      }
      assert links[..|links|] == links;
    }

    // buffer_reset
    method BufferReset()
      requires Valid()
      modifies this`buffer, this`bufferSize, this`ledger
      ensures Valid() && Contents() == old(Contents()) && Fragments() == [] && Live() <= old(Live())
    {
      hide Held, InSync;
      Freed(ledger.store, ledger.buffer, ledger.recipients, ledger.data);
      if buffer != null {
        FreeSmtpLines(buffer, ledger.buffer);
      } else {
        assert ledger.store - ledger.buffer.Members() == ledger.store;
      }
      buffer := null;
      bufferSize := 0;
      ledger := ledger.(buffer := NOTHING);
    }

    // the first half of envelope_free
    method FreeRecipients()
      requires Linked()
      modifies this`recipients, this`ledger
      ensures Linked() && ledger == old(ledger).(store := ledger.store, recipients := NOTHING)
    {
      hide Held, InSync;
      Turned(ledger.store, ledger.buffer, ledger.recipients, ledger.data);
      Freed(ledger.store, ledger.recipients, ledger.data, ledger.buffer);
      if recipients != null {
        FreeSmtpLines(recipients, ledger.recipients);
      }
      recipients := null;
      ledger := ledger.(recipients := NOTHING);
      Turned(ledger.store, ledger.recipients, ledger.data, ledger.buffer);
      Turned(ledger.store, ledger.data, ledger.buffer, ledger.recipients);
    }

    // the second half
    method FreeData()
      requires Linked()
      modifies this`data, this`ledger
      ensures Linked() && ledger == old(ledger).(store := ledger.store, data := NOTHING)
    {
      hide Held, InSync;
      Turned(ledger.store, ledger.buffer, ledger.recipients, ledger.data);
      Turned(ledger.store, ledger.recipients, ledger.data, ledger.buffer);
      Freed(ledger.store, ledger.data, ledger.buffer, ledger.recipients);
      if data != null {
        FreeSmtpLines(data, ledger.data);
      }
      data := null;
      ledger := ledger.(data := NOTHING);
      Turned(ledger.store, ledger.data, ledger.buffer, ledger.recipients);
    }

    // envelope_free
    method EnvelopeFree()
      requires Valid() && buffer == null
      modifies this`recipients, this`data, this`from, this`ledger
      ensures Valid() && Contents() == View(state, EMPTY) && Live() == {}
    {
      hide InSync;
      FreeRecipients();
      FreeData();
      from := None;
    }

    // smtp_session_reset: afterwards no line is left allocated
    method SessionReset(newState: State)
      requires Valid()
      modifies this
      ensures Valid() && Contents() == Reset(newState) && Fragments() == [] && Live() == {}
    {
      BufferReset();
      state := newState;
      EnvelopeFree();
    }

    // malloc of a line and list_init
    method NewLine(text: string) returns (line: Line)
      requires InSync(ledger.store)
      modifies this`ledger
      ensures InSync(ledger.store) && fresh(line)
      ensures ledger == old(ledger).(store := WithNew(old(ledger).store, line, text)) && line !in old(ledger).store
    {
      line := new Link(text);
      ListInit(line);
      ledger := ledger.(store := WithNew(ledger.store, line, text));
    }

    static lemma ToHeap(m: Store, c: Chain)
      requires InSync(m) && Held(m, c) && c.links != []
      ensures OnRing(c)
    {
      RingMeans(c.links);
      DistinctMeans(c.links);
      forall i | 0 <= i < |c.links|
        ensures c.links[i] in m && c.links[i].item == c.texts[i]
      {
        assert c.links[i] in c.Members();
        assert Get(m, c.links[i]).text == c.texts[i];
      }
      assert forall i :: 0 <= i < |c.links| ==> Get(m, c.links[i]) == Cell(c.links[i].next, c.links[i].prev, c.links[i].item);
    }

    static lemma FromHeap(m: Store, c: Chain)
      requires InSync(m) && c.Members() <= m.Keys && OnRing(c)
      ensures Held(m, c)
    {
      hide IsRing, Distinct;
      RingMeans(c.links);
      DistinctMeans(c.links);
      forall i | 0 <= i < |c.links|
        ensures Get(m, c.links[i]) == Cell(c.links[i].next, c.links[i].prev, c.links[i].item)
      {
        assert c.links[i] in c.Members();
      }
    }

    static predicate Mirrored(m: Store, l: Line)
      reads l
    {
      Get(m, l) == Cell(l.next, l.prev, l.item)
    }

    // takes the fields of the lines of a ring over into the ledger
    ghost method Record(d: Chain)
      requires OnRing(d) && d.Members() <= Live()
      requires forall l <- Live() - d.Members() :: Mirrored(ledger.store, l)
      modifies this`ledger
      ensures InSync(ledger.store) && Held(ledger.store, d)
      ensures ledger == old(ledger).(store := ledger.store) && Live() == old(Live())
      ensures forall l <- Live() - d.Members() :: Get(ledger.store, l) == old(Get(ledger.store, l))
    {
      ghost var m := ledger.store;
      ledger := ledger.(store := map l | l in ledger.store :: Cell(l.next, l.prev, l.item));
      FromHeap(ledger.store, d);
      assert forall l <- m.Keys - d.Members() :: Mirrored(m, l);
    }

    // list_add behind the head of a ring
    static method AddBehind(head: Line, line: Line, ghost c: Chain)
      requires OnRing(c) && head == c.Head() && line !in c.links
      modifies c.links`next, c.links`prev, line`next, line`prev
      ensures OnRing(c.With(line, line.item)) && c.With(line, line.item).Members() == c.Members() + {line}
    {
      ListAdd(head, line, c.links, 0);
      SplicedElements(c.links, 0, line);
      ghost var d := c.With(line, line.item);
      assert forall i :: 0 <= i < |d.links| && i != 1 ==> d.texts[i] == c.texts[if i == 0 then 0 else i - 1];
    }

    method Add(head: Line, line: Line, ghost c: Chain, ghost d: Chain)
      requires InSync(ledger.store) && Held(ledger.store, c) && head == c.Head() && line !in c.links
      requires line in Live() && d == c.With(line, Get(ledger.store, line).text)
      modifies this`ledger, Live()`next, Live()`prev
      ensures InSync(ledger.store) && Held(ledger.store, d) && d.Members() == c.Members() + {line}
      ensures ledger == old(ledger).(store := ledger.store) && Live() == old(Live())
      ensures forall l <- Live() - d.Members() :: Get(ledger.store, l) == old(Get(ledger.store, l))
    {
      hide Held, OnRing, IsRing;
      HeldInside(ledger.store, c);
      ToHeap(ledger.store, c);
      assert line.item == Get(ledger.store, line).text;
      AddBehind(head, line, c);
      assert forall l <- Live() - d.Members() :: l !in c.links && l != line;
      Record(d);
    }

    // a new line that becomes the head of a ring or joins it behind the head
    method StoreLine(first: Link?<string>, text: string, ghost c: Chain)
      returns (head: Line, ghost line: Line, ghost d: Chain)
      requires InSync(ledger.store) && Held(ledger.store, c) && first == c.Head()
      modifies this`ledger, Live()`next, Live()`prev
      ensures InSync(ledger.store) && fresh(line) && ledger == old(ledger).(store := ledger.store)
      ensures Joined(old(ledger).store, ledger.store, c, d, line)
      ensures head == d.Head() && d.texts == Stored(c.texts, text)
    {
      hide Held, Joined, InSync;
      ghost var m := ledger.store;
      var element := NewLine(text);
      line, d := element, c.With(element, text);
      NewBeside(m, c, element, text);
      if first == null {
        head := element;
        JoinedFirst(m, c, element, text);
      } else {
        head := first;
        Add(first, element, c, d);
        JoinedLater(m, ledger.store, c, d, element, text);
      }
    }

    // list_add_tail before the head of a ring
    static method AddLast(head: Line, line: Line, ghost c: Chain)
      requires OnRing(c) && head == c.Head() && line !in c.links
      modifies c.links`next, c.links`prev, line`next, line`prev
      ensures OnRing(c.WithLast(line, line.item)) && c.WithLast(line, line.item).Members() == c.Members() + {line}
    {
      ListAddTail(head, line, c.links);
    }

    method AppendLine(first: Link?<string>, text: string, ghost c: Chain)
      returns (head: Line, ghost line: Line, ghost d: Chain)
      requires InSync(ledger.store) && Held(ledger.store, c) && first == c.Head()
      modifies this`ledger, Live()`next, Live()`prev
      ensures InSync(ledger.store) && fresh(line) && ledger == old(ledger).(store := ledger.store)
      ensures Joined(old(ledger).store, ledger.store, c, d, line)
      ensures head == d.Head() && d.texts == c.texts + [text]
    {
      hide Held, Joined, InSync;
      ghost var m := ledger.store;
      var element := NewLine(text);
      line, d := element, c.WithLast(element, text);
      NewBeside(m, c, element, text);
      if first == null {
        head := element;
        JoinedFirst(m, c, element, text);
      } else {
        head := first;
        Append(first, element, c, d);
        JoinedLater(m, ledger.store, c, d, element, text);
      }
    }

    method Append(head: Line, line: Line, ghost c: Chain, ghost d: Chain)
      requires InSync(ledger.store) && Held(ledger.store, c) && head == c.Head() && line !in c.links
      requires line in Live() && d == c.WithLast(line, Get(ledger.store, line).text)
      modifies this`ledger, Live()`next, Live()`prev
      ensures InSync(ledger.store) && Held(ledger.store, d) && d.Members() == c.Members() + {line}
      ensures ledger == old(ledger).(store := ledger.store) && Live() == old(Live())
      ensures forall l <- Live() - d.Members() :: Get(ledger.store, l) == old(Get(ledger.store, l))
    {
      hide Held, OnRing, IsRing;
      HeldInside(ledger.store, c);
      ToHeap(ledger.store, c);
      assert line.item == Get(ledger.store, line).text;
      AddLast(head, line, c);
      assert forall l <- Live() - d.Members() :: l !in c.links && l != line;
      Record(d);
    }

    // the allocation and list operation of smtp_rcpt
    method AddRecipient(text: string)
      requires Valid()
      modifies this`recipients, this`ledger, Live()`next, Live()`prev
      ensures Valid() && fresh(Live() - old(Live())) && Fragments() == old(Fragments())
      ensures ledger.recipients.texts == Stored(old(ledger).recipients.texts, text) && ledger.data == old(ledger).data
    {
      hide Held, InSync, Total, Stored;
      ghost var o := ledger;
      ghost var line, d;
      recipients, line, d := StoreLine(recipients, text, ledger.recipients);
      GrownRecipients(o, ledger.store, d, line);
      ledger := ledger.(recipients := d);
    }

    // the allocation and list operation of smtp_read_data
    method AddData(text: string)
      requires Valid()
      modifies this`data, this`ledger, Live()`next, Live()`prev
      ensures Valid() && fresh(Live() - old(Live())) && Fragments() == old(Fragments())
      ensures ledger.data.texts == Stored(old(ledger).data.texts, text) && ledger.recipients == old(ledger).recipients
    {
      hide Held, InSync, Total, Stored;
      ghost var o := ledger;
      ghost var line, d;
      data, line, d := StoreLine(data, text, ledger.data);
      GrownData(o, ledger.store, d, line);
      ledger := ledger.(data := d);
    }

    // the branch of server_start that keeps a piece without a line end (server/src/server.c)
    method AddFragment(text: string)
      requires Valid()
      modifies this`buffer, this`bufferSize, this`ledger, Live()`next, Live()`prev
      ensures Valid() && fresh(Live() - old(Live())) && Contents() == old(Contents())
      ensures Fragments() == old(Fragments()) + [text]
    {
      hide Held, InSync, Partition;
      TotalLast(ledger.buffer.texts, text);
      hide Total;
      AppendBuffer(text);
      bufferSize := bufferSize + |text|;
    }

    method AppendBuffer(text: string)
      requires Linked()
      modifies this`buffer, this`ledger, Live()`next, Live()`prev
      ensures Linked() && fresh(Live() - old(Live()))
      ensures ledger == old(ledger).(store := ledger.store, buffer := ledger.buffer)
      ensures Fragments() == old(Fragments()) + [text]
    {
      hide Held, InSync;
      ghost var o := ledger;
      ghost var line, d;
      buffer, line, d := AppendLine(buffer, text, ledger.buffer);
      GrownBuffer(o, ledger.store, d, line);
      ledger := ledger.(buffer := d);
    }

    // ---------- commands ----------

    // what server_start sets up for a new client
    constructor ()
      ensures Valid() && Contents() == Reset(Initial) && Fragments() == [] && Live() == {}
    {
      state, buffer, bufferSize := Initial, null, 0;
      recipients, data, from := null, null, None;
      ledger := Ledger(map[], NOTHING, NOTHING, NOTHING);
    }

    method SmtpStartSession() returns (reply: string)
      requires Valid()
      modifies this
      ensures Valid() && Contents() == Reset(Initial) && Fragments() == [] && Live() == {}
      ensures reply == "220\r\n"
    {
      SessionReset(Initial);
      reply := "220\r\n";
    }

    /** Between two states of the session: a command with outcome `o` has been carried out. */
    twostate predicate Did(new o: Outcome, new reply: string, ret: int, new saved: Option<Envelope>)
      reads this, Live()`next, Live()`prev, Live()`item
    {
      && Valid() && Fragments() == [] && fresh(Live() - old(Live()))
      && o == Outcome(Contents(), reply, ret < 0, saved)
    }

    method SmtpEhlo() returns (reply: string, ret: int)
      requires Valid()
      modifies this
      ensures Did(Ehlo(old(Contents())), reply, ret, None)
    {
      SessionReset(Established);
      reply, ret := "250\r\n", 0;
    }

    method SmtpMail(command: string) returns (reply: string, ret: int)
      requires Valid() && Fragments() == []
      modifies this`state, this`from
      ensures Did(MailCommand(old(Contents()), MailFrom(command)), reply, ret, None)
    {
      ret := 0;
      var match1 := MailFrom(command);
      if match1.None? {
        reply := "500\r\n";
      } else if state != Established {
        reply := "503\r\n";
      } else {
        state := MailRcpt;
        from := match1;
        reply := "250 OK\r\n";
      }
    }

    method SmtpRcpt(command: string) returns (reply: string, ret: int)
      requires Valid() && Fragments() == []
      modifies this`recipients, this`ledger, Live()`next, Live()`prev
      ensures Did(RcptCommand(old(Contents()), RcptTo(command)), reply, ret, None)
    {
      ret := 0;
      var match1 := RcptTo(command);
      if match1.None? {
        reply := "500\r\n";
      } else if state != MailRcpt {
        reply := "503\r\n";
      } else {
        AddRecipient(match1.value);
        reply := "250\r\n";
      }
    }

    method SmtpData(command: string) returns (reply: string, ret: int)
      requires Valid() && Fragments() == []
      modifies this`state
      ensures Did(DataCommand(old(Contents()), Exactly(command, "DATA")), reply, ret, None)
    {
      ret := 0;
      if !Exactly(command, "DATA") {
        reply := "500\r\n";
      } else if state != MailRcpt {
        reply := "503\r\n";
      } else {
        state := MailData;
        reply := "354\r\n";
      }
    }

    // envelope_save returns at once: the envelope is complete here
    method EnvelopeSave() returns (ret: int, ghost saved: Envelope)
      requires Valid()
      ensures ret == 0 && saved == Contents().envelope
    {
      ret, saved := 0, Contents().envelope;
    }

    method SmtpReadData(command: string, before: string) returns (reply: string, ret: int, ghost saved: Option<Envelope>)
      requires Valid() && Fragments() == []
      modifies this, Live()`next, Live()`prev
      ensures Did(ReadData(old(Contents()), command, before), reply, ret, saved)
    {
      ret, reply, saved := 0, before, None;
      if command == "." {
        ghost var whole;
        var failed;
        failed, whole := EnvelopeSave();
        saved := Some(whole);
        if failed != 0 {
          reply := "500\r\n";
        } else {
          reply := "250 OK\r\n";
        }
        SessionReset(Established);
      } else {
        AddData(command);
      }
    }

    method SmtpReset(command: string) returns (reply: string, ret: int)
      requires Valid() && Fragments() == []
      modifies this
      ensures Did(RsetCommand(old(Contents()), Exactly(command, "RSET")), reply, ret, None)
      ensures Exactly(command, "RSET") ==> Live() == {} && Contents().envelope == EMPTY && (state == Initial <==> old(state) == Initial)
    {
      ret := 0;
      if !Exactly(command, "RSET") {
        reply := "500\r\n";
      } else {
        SessionReset(if state == Initial then Initial else Established);
        reply := "250 OK\r\n";
      }
    }

    method SmtpQuit(command: string) returns (reply: string, ret: int)
      requires Valid() && Fragments() == []
      modifies this
      ensures Did(QuitCommand(old(Contents()), Exactly(command, "QUIT")), reply, ret, None)
      ensures var was := old(Contents()).envelope;
        Live() == {} <==> Exactly(command, "QUIT") || (was.recipients == [] && was.data == [])
    {
      ret := -1;
      if !Exactly(command, "QUIT") {
        LiveIsStored();
        reply := "500\r\n";
      } else {
        SessionReset(Initial);
        reply := "221 OK\r\n";
      }
    }

    method SmtpProcessCommand(command: array<char>, before: string)
      returns (reply: string, ret: int, ghost saved: Option<Envelope>)
      requires Valid() && Terminated(command[..], 0)
      modifies this, command, Live()`next, Live()`prev
      ensures Did(Process(old(Contents()), old(Text(command[..], 0)), before), reply, ret, saved)
    {
      hide Parse, Act, MailFrom, RcptTo, Trim, ReadData, Text, Linked;
      ghost var text := Text(command[..], 0);
      BufferReset();
      if state == MailData {
        reply, ret, saved := SmtpReadData(Text(command[..], 0), before);
      } else {
        var start := StrTrim(command);
        saved := None;
        reply, ret := Dispatch(Text(command[..], start));
      }
    }

    // the chain of tests in smtp_process_command
    method Dispatch(command: string) returns (reply: string, ret: int)
      requires Valid() && Fragments() == []
      modifies this, Live()`next, Live()`prev
      ensures Did(Act(old(Contents()), Parse(command)), reply, ret, None)
    {
      var verb := ChooseVerb(command);
      reply, ret := Carry(verb, command, Parse(command));
    }

    // the call of the handler
    method Carry(verb: Verb, command: string, ghost p: Parsed) returns (reply: string, ret: int)
      requires Valid() && Fragments() == [] && Chosen(verb, command, p)
      modifies this, Live()`next, Live()`prev
      ensures Did(Act(old(Contents()), p), reply, ret, None)
    {
      match verb {
        case HELO => reply, ret := SmtpEhlo();
        case MAIL => reply, ret := SmtpMail(command);
        case RCPT => reply, ret := SmtpRcpt(command);
        case DATA => reply, ret := SmtpData(command);
        case RSET => reply, ret := SmtpReset(command);
        case QUIT => reply, ret := SmtpQuit(command);
        case VRFY => reply, ret := "502 Not implemented\r\n", 0;
        case OTHER => reply, ret := "500 Unknown command\r\n", 0;
      }
    }
  }

  datatype Verb = HELO | MAIL | RCPT | DATA | RSET | QUIT | VRFY | OTHER

  predicate Chosen(verb: Verb, command: string, p: Parsed) {
    match verb
    case HELO => p == Hello
    case MAIL => p == MailFor(MailFrom(command))
    case RCPT => p == RcptFor(RcptTo(command))
    case DATA => p == Data(Exactly(command, "DATA"))
    case RSET => p == Rset(Exactly(command, "RSET"))
    case QUIT => p == Quit(Exactly(command, "QUIT"))
    case VRFY => p == Verify
    case OTHER => p == Unknown
  }

  method ChooseVerb(command: string) returns (verb: Verb)
    ensures Chosen(verb, command, Parse(command))
  {
    var found := StrStartsWith(command, "EHLO", true);
    if !found {
      found := StrStartsWith(command, "HELO", true);
    }
    if found {
      return HELO;
    }
    found := StrStartsWith(command, "MAIL", true);
    if found {
      return MAIL;
    }
    found := StrStartsWith(command, "RCPT", true);
    if found {
      return RCPT;
    }
    found := StrStartsWith(command, "DATA", true);
    if found {
      return DATA;
    }
    found := StrStartsWith(command, "RSET", true);
    if found {
      return RSET;
    }
    found := StrStartsWith(command, "QUIT", true);
    if found {
      return QUIT;
    }
    found := StrStartsWith(command, "VRFY", true);
    if !found {
      found := StrStartsWith(command, "VERIFY", true);
    }
    return if found then VRFY else OTHER;
  }
}
