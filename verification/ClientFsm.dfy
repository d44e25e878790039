/**
 * The dialogue machine of the client: client/src/client-fsm.c and what the handlers of
 * client/src/client_fsm_handlers.c put into the send queue.
 */
module ClientFsm {
  import opened Wrappers
  import opened Strings

  datatype State = INIT | INITIALIZED | S_EHLO | S_MF | S_RT | S_DATA | S_MAIL | S_QUIT | FINISH | S_ERROR | INVALID | DONE

  datatype Event = CONNECTED | OK | BAD | CONNECTION_LOST | ERROR | EV_INVALID

  datatype Transition = TR_CONNECT | TR_DATA | TR_EHLO | TR_ERROR | TR_FINISH | TR_INVALID | TR_MF | TR_QUIT | TR_RT

  datatype Entry = Entry(next: State, transition: Transition)

  /** A connection that the select loop has not given up or finished. */
  predicate Running(s: State) {
    s != INVALID && s != FINISH && s != S_ERROR
  }

  /** client_fsm_trans_table, and the answer to an event outside of it */
  function Table(s: State, e: Event): Entry {
    if e == EV_INVALID then Entry(INVALID, TR_INVALID)
    else match s
      case INIT => Row(e, Entry(INITIALIZED, TR_CONNECT))
      case INITIALIZED => Row(e, Entry(S_EHLO, TR_EHLO))
      case S_EHLO => Row(e, Entry(S_MF, TR_MF))
      case S_MF => Row(e, Entry(S_RT, TR_RT))
      case S_RT => Row(e, Entry(S_DATA, TR_DATA))
      case S_DATA => Row(e, Entry(S_QUIT, TR_QUIT))
      case S_QUIT => Row(e, Entry(FINISH, TR_FINISH))
      case FINISH => if e == CONNECTION_LOST then Entry(FINISH, TR_FINISH) else Entry(INVALID, TR_INVALID)
      case S_ERROR => Entry(S_ERROR, TR_ERROR)
      case _ => Entry(INVALID, TR_INVALID)
  }

  /** Seven rows differ only in what they do on OK. */
  function Row(e: Event, onOk: Entry): Entry {
    match e
    case OK => onOk
    case BAD => Entry(S_ERROR, TR_ERROR)
    case CONNECTION_LOST => Entry(FINISH, TR_ERROR)
    case ERROR => Entry(S_ERROR, TR_ERROR)
    case _ => Entry(INVALID, TR_INVALID)
  }

  /** What a connection has to say: sender, one recipient, and the lines of the text as read from the file. */
  datatype Letter = Letter(from: string, to: string, text: seq<string>)

  const DOMAIN := "alfabank.com"

  /** The six pieces of a dialogue, and whether there is any text to send in it. */
  datatype Plan = Plan(pieces: seq<string>, hasText: bool)

  type Script = p: Plan | |p.pieces| == 6 witness Plan(["", "", "", "", "", ""], true)

  function EhloLine(): string {
    "EHLO " + DOMAIN + "\r\n"
  }

  function MailLine(from: string): string {
    "MAIL FROM:<" + from + ">\r\n"
  }

  function RcptLine(to: string): string {
    "RCPT TO:<" + to + ">\r\n"
  }

  const DATA_LINE := "DATA\r\n"

  function BodyText(text: seq<string>): string {
    Concat(text) + "\r\n.\r\n"
  }

  const QUIT_LINE := "QUIT\r\n"

  function ScriptOf(m: Letter): Script {
    Plan([EhloLine(), MailLine(m.from), RcptLine(m.to), DATA_LINE, BodyText(m.text), QUIT_LINE], m.text != [])
  }

  /** A connection as the machine sees it: the state and everything ever put into the send queue. */
  datatype Client = Client(state: State, queued: string)

  /** The handler of a transition; `None` stands for exit(). */
  function Handle(p: Script, c: Client, e: Entry): Option<Client> {
    match e.transition
    case TR_CONNECT => Some(Client(e.next, c.queued + p.pieces[0]))
    case TR_EHLO => Some(Client(e.next, c.queued + p.pieces[1]))
    case TR_MF => Some(Client(e.next, c.queued + p.pieces[2]))
    case TR_RT => Some(Client(e.next, c.queued + p.pieces[3]))
    case TR_DATA => Some(if !p.hasText then Client(S_ERROR, c.queued) else Client(e.next, c.queued + p.pieces[4]))
    case TR_QUIT => Some(Client(e.next, c.queued + p.pieces[5]))
    case TR_FINISH => Some(Client(e.next, c.queued))
    case TR_ERROR => Some(Client(e.next, c.queued))
    case TR_INVALID => None
  }

  /** client_fsm_step; in the two terminal states it does nothing to the connection. */
  function Advance(p: Script, c: Client, e: Event): Option<Client> {
    if c.state.INVALID? || c.state.DONE? then Some(c) else Handle(p, c, Table(c.state, e))
  }

  /** The events that client.c raises. */
  predicate Raised(e: Event) {
    e.OK? || e.BAD? || e.CONNECTION_LOST? || e.ERROR?
  }

  /** A connection after a sequence of events; `None` once the process has exited. */
  function Converse(p: Script, events: seq<Event>): Option<Client> {
    if events == [] then Some(Client(INIT, ""))
    else match Converse(p, events[..|events| - 1])
      case None => None
      case Some(c) => Advance(p, c, events[|events| - 1])
  }

  /** How many pieces a state of the dialogue stands for. */
  function Spoken(s: State): nat {
    match s
    case INIT => 0
    case INITIALIZED => 1
    case S_EHLO => 2
    case S_MF => 3
    case S_RT => 4
    case S_DATA => 5
    case _ => 6
  }

  predicate Dialogue(s: State) {
    s.INIT? || s.INITIALIZED? || s.S_EHLO? || s.S_MF? || s.S_RT? || s.S_DATA? || s.S_QUIT?
  }

  /** The queue holds the first `k` pieces, `k` being fixed by the state as long as the dialogue lasts. */
  predicate Prefix(p: Script, c: Client, k: nat) {
    && k <= 6 && c.queued == Concat(p.pieces[..k])
    && (Dialogue(c.state) || c.state.FINISH? || c.state.S_ERROR?)
    && (Dialogue(c.state) ==> k == Spoken(c.state))
  }

  /** What one raised event does: it speaks the next piece, or freezes the queue, or ends the process. */
  lemma AdvanceMeans(p: Script, c: Client, e: Event)
    requires (Dialogue(c.state) || c.state.FINISH? || c.state.S_ERROR?) && Raised(e)
    ensures match Advance(p, c, e)
      case None => c.state == FINISH && e != CONNECTION_LOST
      case Some(d) =>
        && (c.state.S_ERROR? || c.state.FINISH? ==> d == c)
        && (Speaks(p, c.state, e) ==>
              Dialogue(d.state) && Spoken(d.state) == Spoken(c.state) + 1 && d.queued == c.queued + p.pieces[Spoken(c.state)])
        && (!Speaks(p, c.state, e) ==> d.queued == c.queued && (d.state.FINISH? || d.state.S_ERROR?))
        && (Dialogue(c.state) && !Speaks(p, c.state, e) ==>
              (d.state == S_ERROR <==> e == BAD || e == ERROR || (e == OK && c.state == S_RT)))
  {
  }

  /** An OK brings the next piece, unless nothing is left to say or there is no text. */
  predicate Speaks(p: Script, s: State, e: Event) {
    Dialogue(s) && e == OK && s != S_QUIT && (s == S_RT ==> p.hasText)
  }

  lemma AdvancePrefix(p: Script, c: Client, k: nat, e: Event) returns (k': nat)
    requires Prefix(p, c, k) && Raised(e)
    ensures match Advance(p, c, e)
      case None => c.state == FINISH && e != CONNECTION_LOST
      case Some(d) => Prefix(p, d, k') && k <= k' <= k + 1
  {
    AdvanceMeans(p, c, e);
    k' := if Speaks(p, c.state, e) then k + 1 else k;
    if Speaks(p, c.state, e) {
      ConcatOne(p.pieces, k);
    }
  }

  /**
   * Over every run the bytes ever queued are a prefix of the dialogue, cut between two of its pieces.
   * S_ERROR and FINISH freeze it, S_MAIL is never reached.
   */
  lemma {:induction false} ConversePrefix(p: Script, events: seq<Event>)
    requires forall i :: 0 <= i < |events| ==> Raised(events[i])
    ensures Converse(p, events).Some? ==> exists k :: Prefix(p, Converse(p, events).value, k)
  {
    if events == [] {
      assert Prefix(p, Client(INIT, ""), 0);
    } else {
      var r := events[..|events| - 1];
      ConversePrefix(p, r);
      if Converse(p, r).Some? {
        var k :| Prefix(p, Converse(p, r).value, k);
        var k' := AdvancePrefix(p, Converse(p, r).value, k, events[|events| - 1]);
      }
    }
  }

  lemma ConverseNext(p: Script, events: seq<Event>, e: Event)
    requires Converse(p, events).Some?
    ensures Converse(p, events + [e]) == Advance(p, Converse(p, events).value, e)
  {
    hide Advance;
    assert (events + [e])[..|events|] == events;
  }

  lemma ExitsOn(p: Script, c: Client, k: nat, e: Event)
    requires Prefix(p, c, k) && Raised(e)
    ensures Advance(p, c, e) == None <==> c.state == FINISH && e != CONNECTION_LOST
  {
    AdvanceMeans(p, c, e);
  }

  /** The process exits exactly on an event other than a lost connection after the dialogue has finished. */
  lemma HaltsWhen(p: Script, events: seq<Event>, e: Event)
    requires (forall i :: 0 <= i < |events| ==> Raised(events[i])) && Raised(e) && Converse(p, events).Some?
    ensures Converse(p, events + [e]) == None <==> Converse(p, events).value.state == FINISH && e != CONNECTION_LOST
  {
    hide Advance, Prefix, Converse;
    ConversePrefix(p, events);
    var k :| Prefix(p, Converse(p, events).value, k);
    ExitsOn(p, Converse(p, events).value, k, e);
    ConverseNext(p, events, e);
  }

  /** The number of pieces queued only grows: an earlier queue is a prefix of a later one. */
  lemma {:induction false} QueueGrows(p: Script, events: seq<Event>, n: nat)
    requires n <= |events| && Converse(p, events).Some?
    ensures Converse(p, events[..n]).Some? && Converse(p, events[..n]).value.queued <= Converse(p, events).value.queued
    decreases |events|
  {
    if n == |events| {
      assert events[..n] == events;
    } else {
      var r := events[..|events| - 1];
      QueueGrows(p, r, n);
      assert r[..n] == events[..n];
    }
  }

  // ---------- how a dialogue ends ----------

  /** As the event number `n`, an `e` lets the client say its next piece: the text only if there is one. */
  predicate GoesOn(p: Script, n: nat, e: Event) {
    e == OK && n < 6 && (n == 4 ==> p.hasText)
  }

  /** So do the first `n` events. */
  predicate GoneOn(p: Script, events: seq<Event>, n: nat) {
    n <= |events| && forall i :: 0 <= i < n ==> GoesOn(p, i, events[i])
  }

  /** As long as each event lets it go on, the client is as many pieces into the dialogue as there were events. */
  lemma {:induction false} Talking(p: Script, events: seq<Event>)
    requires GoneOn(p, events, |events|)
    ensures |events| <= 6 && Converse(p, events).Some?
    ensures var c := Converse(p, events).value;
      Dialogue(c.state) && Spoken(c.state) == |events| && c.queued == Concat(p.pieces[..|events|])
  {
    if events != [] {
      var r, e := events[..|events| - 1], events[|events| - 1];
      assert forall i :: 0 <= i < |r| ==> GoesOn(p, i, events[i]) && r[i] == events[i];
      Talking(p, r);
      assert GoesOn(p, |r|, e);
      TalksOn(p, Converse(p, r).value, |r|, e);
    }
  }

  lemma TalksOn(p: Script, c: Client, n: nat, e: Event)
    requires n <= 6 && Dialogue(c.state) && Spoken(c.state) == n && c.queued == Concat(p.pieces[..n]) && Raised(e)
    ensures Speaks(p, c.state, e) <==> GoesOn(p, n, e)
    ensures Advance(p, c, e).Some?
    ensures var d := Advance(p, c, e).value;
      if GoesOn(p, n, e) then Dialogue(d.state) && Spoken(d.state) == n + 1 && d.queued == Concat(p.pieces[..n + 1])
      else d == Client(if Fails(n, e) then S_ERROR else FINISH, c.queued)
  {
    hide Advance, Concat;
    AdvanceMeans(p, c, e);
    if n < 6 {
      ConcatOne(p.pieces, n);
    }
  }

  /** As the event number `n`, an `e` that does not let the client go on means that the letter has not got through. */
  predicate Fails(n: nat, e: Event) {
    e == BAD || e == ERROR || (e == OK && n == 4)
  }

  /** Some event behind number `n` is not a lost connection. */
  predicate Over(events: seq<Event>, n: nat) {
    exists i :: n < i < |events| && events[i] != CONNECTION_LOST
  }

  /** What has become of the client, or of the process, after the event number `n` that did not let it go on. */
  predicate EndsAs(p: Script, events: seq<Event>, n: nat, r: Option<Client>)
    requires n < |events| && n <= 6
  {
    var e := events[n];
    match r
    case None => (e == CONNECTION_LOST || (e == OK && n == 6)) && Over(events, n)
    case Some(c) =>
      && c.queued == Concat(p.pieces[..n])
      && (c.state == S_ERROR <==> e == BAD || e == ERROR || (e == OK && n == 4))
      && (c.state == FINISH <==> e == CONNECTION_LOST || (e == OK && n == 6))
      && (c.state == FINISH ==> !Over(events, n))
  }

  /**
   * Over every run the first event that does not let the client go on decides: a refusal, an error or an OK
   * for a letter without text ends in S_ERROR for good; a lost connection or the OK to QUIT ends in FINISH,
   * and from there any event but a lost connection ends the process.
   */
  lemma {:induction false} Ending(p: Script, events: seq<Event>, n: nat)
    requires forall i :: 0 <= i < |events| ==> Raised(events[i])
    requires n < |events| && GoneOn(p, events, n) && !GoesOn(p, n, events[n])
    ensures n <= 6 && EndsAs(p, events, n, Converse(p, events))
    decreases |events|
  {
    var r, e := events[..|events| - 1], events[|events| - 1];
    hide Advance, Dialogue, Spoken, Concat, GoneOn, EndsAs, GoesOn;
    GoneOnShorter(p, events, n);
    if n == |r| {
      Talking(p, r);
      EndsNow(p, events, n, Converse(p, r).value);
    } else {
      Ending(p, r, n);
      EndedBefore(p, r, n, Converse(p, r), e);
      assert r + [e] == events;
    }
  }

  lemma GoneOnShorter(p: Script, events: seq<Event>, n: nat)
    requires n < |events| && GoneOn(p, events, n)
    ensures GoneOn(p, events[..|events| - 1], n)
  {
    hide GoesOn;
    var r := events[..|events| - 1];
    assert forall i :: 0 <= i < n ==> r[i] == events[i];
  }

  lemma EndsNow(p: Script, events: seq<Event>, n: nat, c: Client)
    requires n <= 6 && |events| == n + 1 && !GoesOn(p, n, events[n]) && Raised(events[n])
    requires Dialogue(c.state) && Spoken(c.state) == n && c.queued == Concat(p.pieces[..n])
    ensures EndsAs(p, events, n, Advance(p, c, events[n]))
  {
    hide Advance, Concat;
    TalksOn(p, c, n, events[n]);
  }

  lemma EndedBefore(p: Script, r: seq<Event>, n: nat, c: Option<Client>, e: Event)
    requires n < |r| && n <= 6 && EndsAs(p, r, n, c) && Raised(r[n]) && !GoesOn(p, n, r[n]) && Raised(e)
    ensures EndsAs(p, r + [e], n, if c.None? then None else Advance(p, c.value, e))
  {
    hide Advance, Concat;
    OverLonger(r, n, e);
    if c.Some? {
      AtTheEnd(p, c.value, e);
    }
  }

  lemma OverLonger(r: seq<Event>, n: nat, e: Event)
    requires n < |r|
    ensures Over(r + [e], n) <==> Over(r, n) || e != CONNECTION_LOST
  {
    var s := r + [e];
    assert s[|r|] == e;
    assert forall i :: n < i < |r| ==> s[i] == r[i];
  }

  lemma AtTheEnd(p: Script, c: Client, e: Event)
    requires (c.state == S_ERROR || c.state == FINISH) && Raised(e)
    ensures Advance(p, c, e) == if c.state == S_ERROR || e == CONNECTION_LOST then Some(c) else None
  {
  }

  /** A connection is running exactly as long as every event has let it go on. */
  lemma RunningIff(p: Script, events: seq<Event>)
    requires (forall i :: 0 <= i < |events| ==> Raised(events[i])) && Converse(p, events).Some?
    ensures Running(Converse(p, events).value.state) <==> GoneOn(p, events, |events|)
  {
    if GoneOn(p, events, |events|) {
      Talking(p, events);
    } else {
      var n := Stop(p, events, |events|);
      Ending(p, events, n);
    }
  }

  lemma {:induction false} Stop(p: Script, events: seq<Event>, m: nat) returns (n: nat)
    requires m <= |events| && !GoneOn(p, events, m)
    ensures n < m && GoneOn(p, events, n) && !GoesOn(p, n, events[n])
  {
    if GoneOn(p, events, m - 1) {
      n := m - 1;
    } else {
      n := Stop(p, events, m - 1);
    }
  }
}
