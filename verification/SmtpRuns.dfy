/**
 * What holds of every run of commands against a session (server/src/smtp.c).
 */
module SmtpRuns {
  import opened Wrappers
  import opened StringUtils
  import opened Strings
  import opened SmtpCommands
  import opened Smtp
  import opened Framing
  import opened Server

  // ---------- order of the stored lines ----------

  function Reverse<X>(s: seq<X>): seq<X> {
    if s == [] then [] else Reverse(s[1..]) + [s[0]]
  }

  /** The ring after the lines `l`, one after the other. */
  function StoredAll(l: seq<string>): seq<string> {
    if l == [] then [] else Stored(StoredAll(l[..|l| - 1]), l[|l| - 1])
  }

  lemma {:induction false} ReverseLast<X>(s: seq<X>, x: X)
    ensures Reverse(s + [x]) == [x] + Reverse(s)
  {
    if s != [] {
      assert (s + [x])[1..] == s[1..] + [x];
      ReverseLast(s[1..], x);
    }
  }

  lemma {:induction false} ReverseSame<X>(s: seq<X>)
    ensures multiset(Reverse(s)) == multiset(s)
  {
    if s != [] {
      ReverseSame(s[1..]);
      assert s == [s[0]] + s[1..];
    }
  }

  /** The first line stays at the head, the others follow it last to first ... */
  lemma {:induction false} StoredOrder(l: seq<string>)
    ensures StoredAll(l) == if l == [] then [] else [l[0]] + Reverse(l[1..])
  {
    if |l| == 1 {
      assert StoredAll(l[..0]) == [] && l == [l[0]];
    } else if |l| > 1 {
      var r, x := l[..|l| - 1], l[|l| - 1];
      StoredOrder(r);
      assert l[1..] == r[1..] + [x];
      ReverseLast(r[1..], x);
      assert StoredAll(r)[1..] == Reverse(r[1..]);
      assert [l[0], x] + Reverse(r[1..]) == [l[0]] + ([x] + Reverse(r[1..]));
    }
  }

  lemma SameBehind<X>(x: X, a: seq<X>, b: seq<X>)
    requires multiset(a) == multiset(b)
    ensures multiset([x] + a) == multiset([x] + b)
  {
  }

  /** ... and nothing is lost or doubled. */
  lemma StoredSame(l: seq<string>)
    ensures multiset(StoredAll(l)) == multiset(l)
  {
    StoredOrder(l);
    if l != [] {
      hide StoredAll, Reverse;
      ReverseSame(l[1..]);
      SameBehind(l[0], Reverse(l[1..]), l[1..]);
      assert l == [l[0]] + l[1..];
    }
  }

  // ---------- the invariant of the session ----------

  /** Which envelopes go with which state. */
  predicate Coherent(v: View) {
    match v.state
    case Initial => v.envelope == EMPTY
    case Established => v.envelope == EMPTY
    case MailRcpt => v.envelope.from.Some? && v.envelope.data == []
    case MailData => v.envelope.from.Some?
  }

  lemma StepCoherent(v: View, next: Input, reply: string)
    requires Coherent(v)
    ensures Coherent(Step(v, next, reply).view)
  {
  }

  /** The session after a sequence of lines. */
  function After(ins: seq<Input>): View {
    Serve(Reset(Initial), "", ins).view
  }

  /** It holds after every sequence of lines. */
  lemma {:induction false} RunCoherent(ins: seq<Input>)
    ensures Coherent(After(ins))
    decreases |ins|
  {
    if ins != [] {
      var r := Serve(Reset(Initial), "", ins[..|ins| - 1]);
      RunCoherent(ins[..|ins| - 1]);
      StepCoherent(r.view, ins[|ins| - 1], r.reply);
    }
  }

  /**
   * After any sequence of lines a command that closes the connection leaves stored lines behind exactly
   * if it is malformed and there are recipients.
   */
  lemma ClosingLeaves(ins: seq<Input>, next: Input, reply: string)
    requires Step(After(ins), next, reply).quit
    ensures var left := Step(After(ins), next, reply).view.envelope;
      (left.recipients == [] && left.data == []) <==> next.read == Quit(true) || After(ins).envelope.recipients == []
  {
    RunCoherent(ins);
  }

  predicate IsError(reply: string) {
    reply != "" && reply[0] == '5'
  }

  /** While data lines are read, the reply buffer holds nothing or the answer to DATA. */
  predicate Calm(v: View, reply: string) {
    v.state == MailData ==> reply == "" || reply == "354\r\n"
  }

  /** A command that is answered by an error changes nothing. */
  lemma ErrorKeeps(v: View, next: Input, reply: string)
    requires Calm(v, reply)
    ensures var o := Step(v, next, reply);
      Calm(o.view, o.reply) && (IsError(o.reply) ==> o.view == v && o.saved == None)
  {
  }

  // ---------- what each command does after any lines ----------

  /** The reply to a line that comes after others. */
  function ReplyTo(ins: seq<Input>, c: Input): string {
    Serve(Reset(Initial), "", ins + [c]).reply
  }

  lemma NextIs(ins: seq<Input>, c: Input)
    requires After(ins).state != MailData
    ensures After(ins + [c]) == Act(After(ins), c.read).view && ReplyTo(ins, c) == Act(After(ins), c.read).reply
  {
    ServeLast(Reset(Initial), "", ins, c);
  }

  /** EHLO, HELO, an exact RSET and an exact QUIT leave nothing of a transaction; RSET does not replace the greeting. */
  lemma Restarts(ins: seq<Input>, c: Input)
    requires After(ins).state != MailData && (c.read == Hello || c.read == Rset(true) || c.read == Quit(true))
    ensures var v := After(ins + [c]);
      && v.envelope.from == None && v.envelope.recipients == [] && v.envelope.data == []
      && (v.state == Initial || v.state == Established)
      && (v.state == Initial <==> c.read == Quit(true) || (c.read == Rset(true) && After(ins).state == Initial))
  {
    NextIs(ins, c);
  }

  /** The connection is closed by any command that begins like QUIT, malformed or not, and by nothing else. */
  lemma ClosesOn(ins: seq<Input>, c: Input)
    ensures Closes(Reset(Initial), ins + [c], |ins|) <==> After(ins).state != MailData && c.read.Quit?
  {
    assert (ins + [c])[..|ins|] == ins;
  }

  /** When the protocol allows a command. */
  predicate TakenIn(s: State, p: Parsed) {
    match p
    case MailFor(from) => from.Some? && s == Established
    case RcptFor(to) => to.Some? && s == MailRcpt
    case Data(exact) => exact && s == MailRcpt
    case Hello => true
    case Rset(exact) => exact
    case Quit(exact) => exact
    case _ => false
  }

  /** MAIL is taken after a greeting, RCPT and DATA after MAIL, the commands that start anew at any time, and no others. */
  lemma InSequence(ins: seq<Input>, c: Input)
    requires After(ins).state != MailData
    ensures !IsError(ReplyTo(ins, c)) <==> TakenIn(After(ins).state, c.read)
  {
    hide Act, IsError, After, ReplyTo;
    NextIs(ins, c);
    ActTakes(After(ins), c.read);
  }

  lemma ActTakes(v: View, p: Parsed)
    requires v.state != MailData
    ensures !IsError(Act(v, p).reply) <==> TakenIn(v.state, p)
  {
  }

  /** Of the other commands exactly those answered by an error change nothing. */
  lemma ErrorIff(ins: seq<Input>, c: Input)
    requires After(ins).state != MailData && c.read != Hello && c.read != Rset(true) && c.read != Quit(true)
    ensures IsError(ReplyTo(ins, c)) <==> After(ins + [c]) == After(ins)
  {
    hide Act, IsError, After, ReplyTo;
    NextIs(ins, c);
    ActErrs(After(ins), c.read);
  }

  lemma ActErrs(v: View, p: Parsed)
    requires v.state != MailData && p != Hello && p != Rset(true) && p != Quit(true)
    ensures IsError(Act(v, p).reply) <==> Act(v, p).view == v
  {
  }

  function Code(reply: string): string {
    if |reply| < 3 then reply else reply[..3]
  }

  /** What the client can tell from the code: 503 is for what would have been taken at another time. */
  lemma Codes(ins: seq<Input>, c: Input)
    requires After(ins).state != MailData
    ensures var code := Code(ReplyTo(ins, c));
      && (code == "354" <==> After(ins + [c]).state == MailData)
      && (code == "221" <==> c.read == Quit(true))
      && (code == "502" <==> c.read == Verify)
      && (code == "503" <==> IsError(ReplyTo(ins, c)) && exists ds :: After(ds).state != MailData && !IsError(ReplyTo(ds, c)))
      && code in ["250", "354", "221", "500", "502", "503"]
  {
    hide Act, IsError, After, ReplyTo, Code;
    NextIs(ins, c);
    ActCodes(After(ins), c.read);
    InSequence(ins, c);
    TakenSomewhere();
    forall ds | After(ds).state != MailData
      ensures !IsError(ReplyTo(ds, c)) <==> TakenIn(After(ds).state, c.read)
    {
      InSequence(ds, c);
    }
  }

  lemma ActCodes(v: View, p: Parsed)
    requires v.state != MailData
    ensures var o := Act(v, p);
      && (Code(o.reply) == "354" <==> o.view.state == MailData)
      && (Code(o.reply) == "221" <==> p == Quit(true))
      && (Code(o.reply) == "502" <==> p == Verify)
      && (Code(o.reply) == "503" <==> !TakenIn(v.state, p) && (TakenIn(Established, p) || TakenIn(MailRcpt, p)))
      && Code(o.reply) in ["250", "354", "221", "500", "502", "503"]
  {
    CodeDigits();
    hide Code;
  }

  lemma CodeDigits()
    ensures Code("250\r\n") == Code("250 OK\r\n") == "250" && Code("354\r\n") == "354" && Code("221 OK\r\n") == "221"
    ensures Code("500\r\n") == Code("500 Unknown command\r\n") == "500"
    ensures Code("502 Not implemented\r\n") == "502" && Code("503\r\n") == "503"
    ensures "250" != "354" && "250" != "221" && "250" != "500" && "250" != "502" && "250" != "503" && "354" != "221"
    ensures "354" != "500" && "354" != "502" && "354" != "503" && "221" != "500" && "221" != "502" && "221" != "503"
    ensures "500" != "502" && "500" != "503" && "502" != "503"
  {
    assert "250\r\n"[..3] == "250 OK\r\n"[..3] == "250" && "354\r\n"[..3] == "354" && "221 OK\r\n"[..3] == "221";
    assert "500\r\n"[..3] == "500 Unknown command\r\n"[..3] == "500";
    assert "502 Not implemented\r\n"[..3] == "502" && "503\r\n"[..3] == "503";
    assert "250"[1] == '5' && "354"[0] == '3' && "221"[1] == '2' && "500"[2] == '0' && "502"[2] == '2' && "503"[2] == '3';
    assert "250"[0] == '2' && "221"[0] == '2' && "500"[0] == '5' && "502"[0] == '5' && "503"[0] == '5';
  }

  /** Lines that bring the session into any of its first three states. */
  lemma TakenSomewhere()
    ensures exists ds :: After(ds).state == Established
    ensures exists ds :: After(ds).state == MailRcpt
  {
    var hello, mail := Input("", Hello), Input("", MailFor(Some("")));
    assert After([]).state == Initial;
    NextIs([], hello);
    assert [] + [hello] == [hello];
    NextIs([hello], mail);
    assert After([hello]).state == Established && After([hello] + [mail]).state == MailRcpt;
  }

  // ---------- what led to the present envelope ----------

  /** Line `i` of the run was taken as a command, and it was EHLO or HELO. */
  predicate Greeted(ins: seq<Input>, i: int) {
    0 <= i < |ins| && After(ins[..i]).state != MailData && ins[i].read == Hello
  }

  /** After a greeting `i`, line `j` was an accepted MAIL with this sender. */
  predicate Opened(ins: seq<Input>, i: int, j: int, from: Option<string>) {
    && Greeted(ins, i) && i < j < |ins|
    && After(ins[..j]).state == Established && from.Some? && ins[j].read == MailFor(from)
  }

  /** Line `k` was an accepted DATA. */
  predicate Started(ins: seq<Input>, k: int) {
    0 <= k < |ins| && After(ins[..k]).state == MailRcpt && ins[k].read == Data(true)
  }

  /** The recipients that well-formed RCPT commands name, in order. */
  function Rcpts(ins: seq<Input>): seq<string> {
    if ins == [] then [] else Rcpts(ins[..|ins| - 1]) + Recipient(ins[|ins| - 1].read)
  }

  function Recipient(p: Parsed): seq<string> {
    if p.RcptFor? && p.to.Some? then [p.to.value] else []
  }

  function LinesOf(ins: seq<Input>): (lines: seq<string>)
    ensures |lines| == |ins| && forall i :: 0 <= i < |ins| ==> lines[i] == ins[i].line
  {
    if ins == [] then [] else LinesOf(ins[..|ins| - 1]) + [ins[|ins| - 1].line]
  }

  /** After each line from `j` on and before line `k` the session was in this state. */
  predicate Stays(ins: seq<Input>, j: int, k: int, state: State) {
    forall l :: 0 <= j < l <= k <= |ins| ==> After(ins[..l]).state == state
  }

  /** None of the lines between `j` and `k` is a command that starts the session anew. */
  predicate Unbroken(ins: seq<Input>, j: int, k: int) {
    forall l :: 0 <= j < l < k <= |ins| ==> ins[l].read != Hello && ins[l].read != Rset(true) && ins[l].read != Quit(true)
  }

  /** In the state MAIL_RCPT, since line `j`: the sender of that line and the recipients named after it. */
  predicate Addressing(ins: seq<Input>, i: int, j: int, e: Envelope) {
    && Opened(ins, i, j, e.from) && Stays(ins, j, |ins|, MailRcpt) && Unbroken(ins, j, |ins|)
    && e.recipients == StoredAll(Rcpts(ins[j + 1..])) && e.data == []
  }

  /** In one transaction: in MAIL_RCPT from line `j` up to line `k`, then in MAIL_DATA. */
  predicate Held(ins: seq<Input>, j: int, k: int) {
    Stays(ins, j, k, MailRcpt) && Unbroken(ins, j, k) && Stays(ins, k, |ins|, MailData)
  }

  /**
   * In the state MAIL_DATA, since line `k`, and in MAIL_RCPT from line `j` up to there: the sender of line
   * `j`, the recipients up to line `k`, and every line since. No reset lies in between.
   */
  predicate Reading(ins: seq<Input>, i: int, j: int, k: int, e: Envelope) {
    && Opened(ins, i, j, e.from) && j < k && Started(ins, k)
    && Held(ins, j, k)
    && e.recipients == StoredAll(Rcpts(ins[j + 1..k])) && e.data == StoredAll(LinesOf(ins[k + 1..]))
  }

  /** The state of a session and its envelope, explained by the lines that led there. */
  ghost predicate Explained(ins: seq<Input>, v: View) {
    match v.state
    case Initial => v.envelope == EMPTY
    case Established => v.envelope == EMPTY && exists i :: Greeted(ins, i)
    case MailRcpt => exists i, j :: Addressing(ins, i, j, v.envelope)
    case MailData => exists i, j, k :: Reading(ins, i, j, k, v.envelope)
  }

  lemma Longer(r: seq<Input>, c: Input)
    ensures forall i :: Greeted(r, i) ==> Greeted(r + [c], i)
    ensures forall i, j, from :: Opened(r, i, j, from) ==> Opened(r + [c], i, j, from)
    ensures forall k :: Started(r, k) ==> Started(r + [c], k)
  {
    assert forall i :: 0 <= i < |r| ==> r[..i] == (r + [c])[..i];
  }

  lemma StaysLonger(r: seq<Input>, c: Input, j: int, k: int, state: State)
    requires Stays(r, j, k, state) && k <= |r|
    ensures Stays(r + [c], j, k, state)
    ensures k == |r| && After(r + [c]).state == state ==> Stays(r + [c], j, k + 1, state)
  {
    assert (r + [c])[..|r| + 1] == r + [c];
    assert forall l :: 0 <= l <= |r| ==> (r + [c])[..l] == r[..l];
  }

  lemma UnbrokenLonger(r: seq<Input>, c: Input, j: int, k: int)
    requires Unbroken(r, j, k) && k <= |r|
    ensures Unbroken(r + [c], j, k)
    ensures k == |r| && c.read != Hello && c.read != Rset(true) && c.read != Quit(true) ==> Unbroken(r + [c], j, k + 1)
  {
  }

  lemma StaysOnce(r: seq<Input>, c: Input, state: State)
    requires After(r + [c]).state == state
    ensures Stays(r + [c], |r|, |r| + 1, state)
  {
    assert (r + [c])[..|r| + 1] == r + [c];
  }

  lemma RcptsLast(r: seq<Input>, c: Input)
    ensures Rcpts(r + [c]) == Rcpts(r) + Recipient(c.read)
  {
    assert (r + [c])[..|r|] == r;
  }

  lemma StoredLast(l: seq<string>, x: string)
    ensures StoredAll(l + [x]) == Stored(StoredAll(l), x)
  {
    assert (l + [x])[..|l|] == l;
  }

  lemma ReadingStep(r: seq<Input>, c: Input, v: View, i: int, j: int, k: int, reply: string)
    requires v.state == MailData && Reading(r, i, j, k, v.envelope)
    requires After(r + [c]) == ReadData(v, c.line, reply).view
    ensures Explained(r + [c], ReadData(v, c.line, reply).view)
  {
    assert Greeted(r, i);
    hide After, Reading, Stays, Greeted, Explained;
    var v' := ReadData(v, c.line, reply).view;
    if c.line == "." {
      DotExplained(r, c, i, v');
    } else {
      ReadingMore(r, c, i, j, k, v.envelope, v'.envelope);
      ReadingExplains(r + [c], i, j, k, v');
    }
  }

  lemma DotExplained(r: seq<Input>, c: Input, i: int, v: View)
    requires Greeted(r, i) && v == Reset(Established)
    ensures Explained(r + [c], v)
  {
    hide After;
    GreetedStill(r, c, i);
  }

  lemma ReadingExplains(ins: seq<Input>, i: int, j: int, k: int, v: View)
    requires v.state == MailData && Reading(ins, i, j, k, v.envelope)
    ensures Explained(ins, v)
  {
    hide After, Reading;
  }

  lemma LinesMore(tail: seq<Input>, c: Input, e: Envelope)
    requires e.data == StoredAll(LinesOf(tail))
    ensures Stored(e.data, c.line) == StoredAll(LinesOf(tail + [c]))
  {
    hide StoredAll;
    StoredLast(LinesOf(tail), c.line);
    assert LinesOf(tail + [c]) == LinesOf(tail) + [c.line];
  }

  lemma LastSlices(r: seq<Input>, c: Input, j: nat, k: nat)
    requires j <= k < |r|
    ensures (r + [c])[j..k] == r[j..k] && (r + [c])[k + 1..] == r[k + 1..] + [c]
  {
  }

  lemma ReadingStill(r: seq<Input>, c: Input, i: int, j: int, k: int, from: Option<string>)
    requires Opened(r, i, j, from) && Started(r, k)
    ensures Opened(r + [c], i, j, from) && Started(r + [c], k)
  {
    hide After;
    Longer(r, c);
  }

  lemma HeldLonger(r: seq<Input>, c: Input, j: int, k: int)
    requires Held(r, j, k) && k <= |r| && After(r + [c]).state == MailData
    ensures Held(r + [c], j, k)
  {
    hide After, Stays, Unbroken;
    StaysLonger(r, c, j, k, MailRcpt);
    UnbrokenLonger(r, c, j, k);
    StaysLonger(r, c, k, |r|, MailData);
  }

  lemma ReadingMore(r: seq<Input>, c: Input, i: int, j: int, k: int, e: Envelope, e': Envelope)
    requires Reading(r, i, j, k, e) && After(r + [c]).state == MailData && e' == e.(data := Stored(e.data, c.line))
    ensures Reading(r + [c], i, j, k, e')
  {
    assert 0 <= j < k < |r|;
    hide After, Held, Stays, Unbroken, StoredAll, Stored, Opened, Started, LinesOf, Rcpts;
    LastSlices(r, c, j + 1, k);
    ReadingStill(r, c, i, j, k, e.from);
    HeldLonger(r, c, j, k);
    LinesMore(r[k + 1..], c, e);
  }

  function WithRecipient(e: Envelope, p: Parsed): Envelope {
    if p.RcptFor? && p.to.Some? then e.(recipients := Stored(e.recipients, p.to.value)) else e
  }

  lemma RecipientsMore(tail: seq<Input>, c: Input, e: Envelope)
    requires e.recipients == StoredAll(Rcpts(tail))
    ensures WithRecipient(e, c.read).recipients == StoredAll(Rcpts(tail + [c]))
  {
    hide StoredAll, Rcpts;
    RcptsLast(tail, c);
    if Recipient(c.read) != [] {
      StoredLast(Rcpts(tail), c.read.to.value);
    } else {
      assert Rcpts(tail) + [] == Rcpts(tail);
    }
  }

  lemma AddressingMore(r: seq<Input>, c: Input, i: int, j: int, e: Envelope, e': Envelope)
    requires Addressing(r, i, j, e) && After(r + [c]).state == MailRcpt && c.read != Hello && c.read != Rset(true) && c.read != Quit(true)
    requires e' == WithRecipient(e, c.read)
    ensures Addressing(r + [c], i, j, e')
  {
    hide After, Stays, Unbroken, StoredAll, Stored, Rcpts;
    assert (r + [c])[j + 1..] == r[j + 1..] + [c];
    Longer(r, c);
    StaysLonger(r, c, j, |r|, MailRcpt);
    UnbrokenLonger(r, c, j, |r|);
    RecipientsMore(r[j + 1..], c, e);
  }

  lemma ReadingBegins(r: seq<Input>, c: Input, i: int, j: int, e: Envelope)
    requires Addressing(r, i, j, e) && After(r).state == MailRcpt && c.read == Data(true) && After(r + [c]).state == MailData
    ensures Reading(r + [c], i, j, |r|, e)
  {
    hide After;
    Longer(r, c);
    StaysLonger(r, c, j, |r|, MailRcpt);
    StaysOnce(r, c, MailData);
    var cs := r + [c];
    assert cs[..|r|] == r && cs[j + 1..|r|] == r[j + 1..] && cs[|r| + 1..] == [];
  }

  lemma AddressingStep(r: seq<Input>, c: Input, v: View, i: int, j: int)
    requires v == After(r) && v.state == MailRcpt && Addressing(r, i, j, v.envelope)
    requires After(r + [c]) == Act(v, c.read).view
    ensures Explained(r + [c], Act(v, c.read).view)
  {
    var p := c.read;
    if p == Hello {
      assert (r + [c])[..|r|] == r;
      assert Greeted(r + [c], |r|);
    } else if p == Data(true) {
      ReadingBegins(r, c, i, j, v.envelope);
    } else if p == Rset(true) {
      Longer(r, c);
    } else if p != Quit(true) {
      AddressingMore(r, c, i, j, v.envelope, Act(v, p).view.envelope);
    }
  }

  lemma OpeningStep(r: seq<Input>, c: Input, v: View)
    requires v == After(r) && v.state in {Initial, Established} && Explained(r, v)
    requires After(r + [c]) == Act(v, c.read).view
    ensures Explained(r + [c], Act(v, c.read).view)
  {
    hide After, Addressing, Reading, Greeted;
    var cs, p := r + [c], c.read;
    if p == Hello {
      GreetedNow(r, c);
    } else if v.state == Established && p.MailFor? && p.from.Some? {
      var i :| Greeted(r, i);
      AddressingBegins(r, c, i, p.from);
    } else if v.state == Established {
      var i :| Greeted(r, i);
      GreetedStill(r, c, i);
    }
  }

  lemma GreetedNow(r: seq<Input>, c: Input)
    requires After(r).state != MailData && c.read == Hello
    ensures Greeted(r + [c], |r|)
  {
    assert (r + [c])[..|r|] == r;
  }

  lemma GreetedStill(r: seq<Input>, c: Input, i: int)
    requires Greeted(r, i)
    ensures Greeted(r + [c], i)
  {
    Longer(r, c);
  }

  lemma AddressingBegins(r: seq<Input>, c: Input, i: int, from: Option<string>)
    requires Greeted(r, i) && After(r).state == Established && from.Some? && c.read == MailFor(from) && After(r + [c]).state == MailRcpt
    ensures Addressing(r + [c], i, |r|, Envelope(from, [], []))
  {
    var cs := r + [c];
    assert cs[..|r|] == r && cs[|r| + 1..] == [];
    hide After;
    Longer(r, c);
    StaysOnce(r, c, MailRcpt);
  }

  /**
   * After any run of lines the envelope is explained by them. In particular a session reads data only
   * after EHLO or HELO, MAIL and DATA in this order, and what it holds then are that sender, the
   * recipients accepted in between and all lines since.
   */
  lemma {:induction false} History(ins: seq<Input>)
    ensures Explained(ins, After(ins))
  {
    if ins != [] {
      var r, c := ins[..|ins| - 1], ins[|ins| - 1];
      assert ins == r + [c];
      History(r);
      var v, reply := After(r), Serve(Reset(Initial), "", r).reply;
      if v.state == MailData {
        var i, j, k :| Reading(r, i, j, k, v.envelope);
        ReadingStep(r, c, v, i, j, k, reply);
      } else if v.state == MailRcpt {
        var i, j :| Addressing(r, i, j, v.envelope);
        AddressingStep(r, c, v, i, j);
      } else {
        OpeningStep(r, c, v);
      }
    }
  }

  // ---------- which envelopes are saved ----------

  /** Line `l` of the run is the dot that ends the data. */
  predicate Completes(ins: seq<Input>, l: nat) {
    l < |ins| && After(ins[..l]).state == MailData && ins[l].line == "."
  }

  /** How many of the first `n` lines are. */
  function Dots(ins: seq<Input>, n: nat): nat {
    |set l: nat | l < n && Completes(ins, l)|
  }

  lemma DotsNext(r: seq<Input>, c: Input)
    ensures Dots(r + [c], |r| + 1) == Dots(r, |r|) + if Completes(r + [c], |r|) then 1 else 0
    ensures forall n: nat :: n <= |r| ==> Dots(r + [c], n) == Dots(r, n)
  {
    hide After;
    var ins := r + [c];
    assert forall l: nat :: l <= |r| ==> ins[..l] == r[..l];
    forall n: nat | n <= |r|
      ensures Dots(ins, n) == Dots(r, n)
    {
      assert (set l: nat | l < n && Completes(ins, l)) == (set l: nat | l < n && Completes(r, l));
    }
    assert (set l: nat | l < |r| + 1 && Completes(ins, l))
        == (set l: nat | l < |r| && Completes(ins, l)) + if Completes(ins, |r|) then {|r|} else {};
  }

  /** The envelopes saved in a run are those of its dots in their order, and nothing else is saved. */
  lemma {:induction false} SavedAre(ins: seq<Input>, l: nat)
    ensures |Serve(Reset(Initial), "", ins).saved| == Dots(ins, |ins|)
    ensures Completes(ins, l) ==>
      Dots(ins, l) < Dots(ins, |ins|) && Serve(Reset(Initial), "", ins).saved[Dots(ins, l)] == After(ins[..l]).envelope
    decreases |ins|
  {
    if ins == [] {
      assert (set l: nat | l < 0 && Completes(ins, l)) == {};
    } else {
      var r, c := ins[..|ins| - 1], ins[|ins| - 1];
      assert ins == r + [c];
      SavedAre(r, l);
      DotsNext(r, c);
      SavedNext(r, c);
      assert l <= |r| ==> ins[..l] == r[..l];
    }
  }

  lemma SavedNext(r: seq<Input>, c: Input)
    ensures Serve(Reset(Initial), "", r + [c]).saved ==
      Serve(Reset(Initial), "", r).saved + if Completes(r + [c], |r|) then [After(r).envelope] else []
  {
    hide Act, Serve;
    ServeLast(Reset(Initial), "", r, c);
    assert (r + [c])[..|r|] == r;
    OnlyDotSaves(After(r), c, Serve(Reset(Initial), "", r).reply);
  }

  lemma OnlyDotSaves(v: View, c: Input, reply: string)
    ensures Step(v, c, reply).saved == if v.state == MailData && c.line == "." then Some(v.envelope) else None
  {
  }

  /** So each of them is explained by the lines before its dot, and the session is ready for the next. */
  lemma SavedExplained(ins: seq<Input>, l: nat)
    requires Completes(ins, l)
    ensures Dots(ins, l) < |Serve(Reset(Initial), "", ins).saved|
    ensures exists i, j, k :: Reading(ins[..l], i, j, k, Serve(Reset(Initial), "", ins).saved[Dots(ins, l)])
    ensures After(ins[..l + 1]) == View(Established, EMPTY) && Code(ReplyTo(ins[..l], ins[l])) == "250"
  {
    hide Serve, Reading, Dots, Code;
    SavedAre(ins, l);
    History(ins[..l]);
    assert ins[..l + 1] == ins[..l] + [ins[l]];
    ServeLast(Reset(Initial), "", ins[..l], ins[l]);
    CodeDigits();
  }

  // ---------- runs of chunks ----------

  /** A command changes the session in a way that does not depend on the reply buffer. */
  lemma StepAnyReply(v: View, next: Input, a: string, b: string)
    ensures Step(v, next, a).(reply := "") == Step(v, next, b).(reply := "")
  {
  }

  /** From the same state the same line does the same. */
  lemma ServeSame(v: View, a: string, cs: seq<Input>, w: View, b: string, ds: seq<Input>, x: Input, before: seq<Envelope>)
    requires Serve(v, a, cs).view == Serve(w, b, ds).view && Serve(v, a, cs).saved == before + Serve(w, b, ds).saved
    ensures Serve(v, a, cs + [x]).view == Serve(w, b, ds + [x]).view
    ensures Serve(v, a, cs + [x]).saved == before + Serve(w, b, ds + [x]).saved
  {
    StepAnyReply(Serve(w, b, ds).view, x, Serve(v, a, cs).reply, Serve(w, b, ds).reply);
    ServeLast(v, a, cs, x);
    ServeLast(w, b, ds, x);
  }

  ghost predicate Splits(v: View, reply: string, a: seq<Input>, b: seq<Input>) {
    var w := Serve(v, reply, a).view;
    && Serve(v, reply, a + b).view == Serve(w, "", b).view
    && Serve(v, reply, a + b).saved == Serve(v, reply, a).saved + Serve(w, "", b).saved
  }

  lemma SplitsNext(v: View, reply: string, a: seq<Input>, b: seq<Input>, x: Input)
    requires Splits(v, reply, a, b)
    ensures Splits(v, reply, a, b + [x])
  {
    ServeSame(v, reply, a + b, Serve(v, reply, a).view, "", b, x, Serve(v, reply, a).saved);
    assert a + (b + [x]) == a + b + [x];
  }

  /** Serving in two parts is serving in one. */
  lemma {:induction false} ServeSplit(v: View, reply: string, a: seq<Input>, b: seq<Input>)
    ensures Splits(v, reply, a, b)
    decreases |b|
  {
    if b == [] {
      assert a + b == a;
    } else {
      var c, x := b[..|b| - 1], b[|b| - 1];
      ServeSplit(v, reply, a, c);
      SplitsNext(v, reply, a, c, x);
      assert b == c + [x];
    }
  }

  /** What a session and its saved envelopes are after several chunks, taken one by one. */
  function ServeChunks(v: View, tail: string, chunks: seq<string>): (View, string, seq<Envelope>)
    decreases |chunks|
  {
    if chunks == [] then (v, tail, [])
    else
      var (commands, rest) := Feed(tail, chunks[0]);
      var r := Serve(v, "", Inputs(commands));
      var (w, last, saved) := ServeChunks(r.view, rest, chunks[1..]);
      (w, last, r.saved + saved)
  }

  /** Only the commands matter, not how they were spread over the chunks. */
  lemma {:induction false} ChunksAreCommands(v: View, tail: string, chunks: seq<string>)
    ensures var (commands, rest) := FeedAll(tail, chunks);
      var r := Serve(v, "", Inputs(commands));
      ServeChunks(v, tail, chunks) == (r.view, rest, r.saved)
    decreases |chunks|
  {
    if chunks != [] {
      var (first, rest) := Feed(tail, chunks[0]);
      var more := FeedAll(rest, chunks[1..]).0;
      ChunksAreCommands(Serve(v, "", Inputs(first)).view, rest, chunks[1..]);
      ServeSplit(v, "", Inputs(first), Inputs(more));
      InputsAppend(first, more);
    }
  }

  /** In a run of chunks nothing follows a command that closes the connection. */
  predicate QuitEndsRun(v: View, tail: string, chunks: seq<string>)
    decreases |chunks|
  {
    chunks != [] ==>
      var all := Feed(tail, chunks[0]);
      && QuitIsLast(v, Inputs(all.0), all.1)
      && ((exists i :: 0 <= i < |all.0| && Closes(v, Inputs(all.0), i)) ==> |chunks| == 1)
      && QuitEndsRun(Serve(v, "", Inputs(all.0)).view, all.1, chunks[1..])
  }

  /** `chunks` are still to come, and what they will lead to. */
  predicate Ahead(whole: (View, string, seq<Envelope>), v: View, tail: string, saved: seq<Envelope>, chunks: seq<string>) {
    QuitEndsRun(v, tail, chunks) && var (w, last, more) := ServeChunks(v, tail, chunks); whole == (w, last, saved + more)
  }

  lemma AheadStart(v: View, chunks: seq<string>)
    requires QuitEndsRun(v, "", chunks)
    ensures Ahead(ServeChunks(v, "", chunks), v, "", [], chunks)
  {
    assert [] + ServeChunks(v, "", chunks).2 == ServeChunks(v, "", chunks).2;
  }

  lemma AheadDone(whole: (View, string, seq<Envelope>), v: View, tail: string, saved: seq<Envelope>)
    requires Ahead(whole, v, tail, saved, [])
    ensures whole == (v, tail, saved)
  {
    assert saved + [] == saved;
  }

  lemma ConcatNone()
    ensures Concat([]) == ""
  {
  }

  lemma AheadStep(whole: (View, string, seq<Envelope>), v: View, tail: string, saved: seq<Envelope>, chunks: seq<string>)
    requires Ahead(whole, v, tail, saved, chunks) && chunks != []
    ensures var all := Feed(tail, chunks[0]);
      var r := Serve(v, "", Inputs(all.0));
      QuitIsLast(v, Inputs(all.0), all.1) && Ahead(whole, r.view, all.1, saved + r.saved, chunks[1..])
  {
    var all := Feed(tail, chunks[0]);
    var r := Serve(v, "", Inputs(all.0));
    assert saved + (r.saved + ServeChunks(r.view, all.1, chunks[1..]).2) == saved + r.saved + ServeChunks(r.view, all.1, chunks[1..]).2;
  }

  method NextChunk(s: Session, chunk: string, ghost whole: (View, string, seq<Envelope>), ghost saved: seq<Envelope>, ghost chunks: seq<string>)
    returns (ghost now: seq<Envelope>)
    requires s.Valid() && NUL !in Concat(s.Fragments()) && NUL !in chunk && chunks != [] && chunk == chunks[0]
    requires Ahead(whole, s.Contents(), Concat(s.Fragments()), saved, chunks)
    modifies s, s.Live()`next, s.Live()`prev
    ensures s.Valid() && NUL !in Concat(s.Fragments()) && fresh(s.Live() - old(s.Live()))
    ensures Ahead(whole, s.Contents(), Concat(s.Fragments()), saved + now, chunks[1..])
  {
    AheadStep(whole, s.Contents(), Concat(s.Fragments()), saved, chunks);
    var sent, closed;
    sent, closed, now := HandleChunk(s, chunk);
  }

  // a session from its first chunk to its last
  method ServeStream(chunks: seq<string>) returns (s: Session, ghost saved: seq<Envelope>)
    requires forall i :: 0 <= i < |chunks| ==> NUL !in chunks[i]
    requires QuitEndsRun(Reset(Initial), "", chunks)
    ensures s.Valid()
    ensures var (commands, rest) := FeedAll("", chunks);
      s.Contents() == After(Inputs(commands)) && Concat(s.Fragments()) == rest && saved == Serve(Reset(Initial), "", Inputs(commands)).saved
  {
    hide Serve, Feed, FeedAll, ServeChunks, Ahead, QuitEndsRun, Concat;
    s := new Session();
    saved := [];
    ghost var whole := ServeChunks(Reset(Initial), "", chunks);
    AheadStart(Reset(Initial), chunks);
    ConcatNone();
    assert chunks[0..] == chunks;
    for n := 0 to |chunks|
      invariant s.Valid() && NUL !in Concat(s.Fragments()) && fresh(s) && fresh(s.Live())
      invariant Ahead(whole, s.Contents(), Concat(s.Fragments()), saved, chunks[n..])
    {
      ghost var now := NextChunk(s, chunks[n], whole, saved, chunks[n..]);
      saved := saved + now;
      assert chunks[n..][1..] == chunks[n + 1..];
    }
    AheadDone(whole, s.Contents(), Concat(s.Fragments()), saved);
    ChunksAreCommands(Reset(Initial), "", chunks);
  }
}
