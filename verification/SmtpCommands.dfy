/**
 * What the SMTP session of server/src/smtp.c does with a command, as functions on the state and
 * envelope; `Smtp.Session` carries them out on linked lists.
 */
module SmtpCommands {
  import opened Wrappers
  import opened Strings
  import opened StringUtils
  import opened MailGrammar

  datatype State = Initial | Established | MailRcpt | MailData

  /** Recipients and data lines in the order of their rings, starting at the head. */
  datatype Envelope = Envelope(from: Option<string>, recipients: seq<string>, data: seq<string>)

  const EMPTY := Envelope(None, [], [])

  datatype View = View(state: State, envelope: Envelope)

  /** `saved` is an envelope that was complete at this point; `quit` stands for a negative return value. */
  datatype Outcome = Outcome(view: View, reply: string, quit: bool, saved: Option<Envelope>)

  /** list_add behind the head */
  function Stored(ring: seq<string>, line: string): seq<string> {
    if ring == [] then [line] else [ring[0], line] + ring[1..]
  }

  function Reset(state: State): View {
    View(state, EMPTY)
  }

  function Say(v: View, reply: string): Outcome {
    Outcome(v, reply, false, None)
  }

  function Ehlo(v: View): Outcome {
    Say(Reset(Established), "250\r\n")
  }

  /** A command as the handlers read it: an address or nothing, or whether it is exactly its word. */
  datatype Parsed = Hello
                  | MailFor(from: Option<string>)
                  | RcptFor(to: Option<string>)
                  | Data(exact: bool)
                  | Rset(exact: bool)
                  | Quit(exact: bool)
                  | Verify
                  | Unknown

  function MailCommand(v: View, from: Option<string>): Outcome {
    if from.None? then Say(v, "500\r\n")
    else if v.state != Established then Say(v, "503\r\n")
    else Say(View(MailRcpt, v.envelope.(from := from)), "250 OK\r\n")
  }

  function RcptCommand(v: View, to: Option<string>): Outcome {
    if to.None? then Say(v, "500\r\n")
    else if v.state != MailRcpt then Say(v, "503\r\n")
    else Say(v.(envelope := v.envelope.(recipients := Stored(v.envelope.recipients, to.value))), "250\r\n")
  }

  function DataCommand(v: View, exact: bool): Outcome {
    if !exact then Say(v, "500\r\n")
    else if v.state != MailRcpt then Say(v, "503\r\n")
    else Say(v.(state := MailData), "354\r\n")
  }

  function ReadData(v: View, line: string, reply: string): Outcome {
    if line == "." then Outcome(Reset(Established), "250 OK\r\n", false, Some(v.envelope))
    else Say(v.(envelope := v.envelope.(data := Stored(v.envelope.data, line))), reply)
  }

  function RsetCommand(v: View, exact: bool): Outcome {
    if !exact then Say(v, "500\r\n")
    else Say(Reset(if v.state == Initial then Initial else Established), "250 OK\r\n")
  }

  function QuitCommand(v: View, exact: bool): Outcome {
    if !exact then Outcome(v, "500\r\n", true, None)
    else Outcome(Reset(Initial), "221 OK\r\n", true, None)
  }

  function Act(v: View, p: Parsed): Outcome {
    match p
    case Hello => Ehlo(v)
    case MailFor(from) => MailCommand(v, from)
    case RcptFor(to) => RcptCommand(v, to)
    case Data(exact) => DataCommand(v, exact)
    case Rset(exact) => RsetCommand(v, exact)
    case Quit(exact) => QuitCommand(v, exact)
    case Verify => Say(v, "502 Not implemented\r\n")
    case Unknown => Say(v, "500 Unknown command\r\n")
  }

  /** A command that is exactly `word`, in any case. */
  predicate Exactly(command: string, word: string) {
    |command| == |word| && StartsWith(command, word, true)
  }

  /** The choice of a handler by the first letters in any case, and what the handler reads. */
  function Parse(c: string): Parsed {
    if StartsWith(c, "EHLO", true) || StartsWith(c, "HELO", true) then Hello
    else if StartsWith(c, "MAIL", true) then MailFor(MailFrom(c))
    else if StartsWith(c, "RCPT", true) then RcptFor(RcptTo(c))
    else if StartsWith(c, "DATA", true) then Data(Exactly(c, "DATA"))
    else if StartsWith(c, "RSET", true) then Rset(Exactly(c, "RSET"))
    else if StartsWith(c, "QUIT", true) then Quit(Exactly(c, "QUIT"))
    else if StartsWith(c, "VRFY", true) || StartsWith(c, "VERIFY", true) then Verify
    else Unknown
  }

  /** Which word a command begins with, in any spelling, is which command it is; three of them must be the word alone. */
  lemma ParseWords(c: string)
    ensures Parse(c) == Hello <==> Begins(c, "EHLO") || Begins(c, "HELO")
    ensures Parse(c).MailFor? <==> Begins(c, "MAIL")
    ensures Parse(c).RcptFor? <==> Begins(c, "RCPT")
    ensures (Parse(c).Data? <==> Begins(c, "DATA")) && (Parse(c) == Data(true) <==> Spells(c, "DATA"))
    ensures (Parse(c).Rset? <==> Begins(c, "RSET")) && (Parse(c) == Rset(true) <==> Spells(c, "RSET"))
    ensures (Parse(c).Quit? <==> Begins(c, "QUIT")) && (Parse(c) == Quit(true) <==> Spells(c, "QUIT"))
    ensures Parse(c) == Verify <==> Begins(c, "VRFY") || Begins(c, "VERIFY")
  {
    hide StartsWith, Begins, Spells, MailFrom, RcptTo, Exactly, Initials;
    InitialsAre();
    Word(c, "EHLO");
    Word(c, "HELO");
    Word(c, "MAIL");
    Word(c, "RCPT");
    Word(c, "DATA");
    Word(c, "RSET");
    Word(c, "QUIT");
    Word(c, "VRFY");
    Word(c, "VERIFY");
  }

  /** The first two letters in lower case, which tell the words apart. */
  function Initials(w: string): string {
    if |w| < 2 then "" else [ToLower(w[0]), ToLower(w[1])]
  }

  lemma InitialsAre()
    ensures Initials("EHLO") == "eh" && Initials("HELO") == "he" && Initials("MAIL") == "ma" && Initials("RCPT") == "rc"
    ensures Initials("DATA") == "da" && Initials("RSET") == "rs" && Initials("QUIT") == "qu" && Initials("VRFY") == "vr" && Initials("VERIFY") == "ve"
  {
  }

  lemma Word(c: string, w: string)
    requires |w| >= 2
    ensures (StartsWith(c, w, true) <==> Begins(c, w)) && (Exactly(c, w) <==> Spells(c, w)) && (Exactly(c, w) ==> StartsWith(c, w, true))
    ensures StartsWith(c, w, true) ==> Initials(c) == Initials(w)
  {
    StartsWithMeans(c, w);
  }

  /** A line together with the command it is, should it be taken as one. */
  datatype Input = Input(line: string, read: Parsed)

  function InputOf(line: string): Input {
    Input(line, Parse(Trim(line)))
  }

  /** White space around a command is not read. */
  lemma LineRead(a: string, c: string, b: string)
    requires White(a) && White(b) && (c != "" ==> !White(c[..1]) && !White(c[|c| - 1..]))
    ensures InputOf(a + c + b).read == Parse(c)
  {
    TrimAround(a, c, b);
  }

  function Inputs(lines: seq<string>): (ins: seq<Input>)
    ensures |ins| == |lines|
  {
    if lines == [] then [] else Inputs(lines[..|lines| - 1]) + [InputOf(lines[|lines| - 1])]
  }

  lemma InputsLast(lines: seq<string>, line: string)
    ensures Inputs(lines + [line]) == Inputs(lines) + [InputOf(line)]
  {
    hide InputOf;
    assert (lines + [line])[..|lines|] == lines;
  }

  lemma InputsAppendLast(a: seq<string>, b: seq<string>, line: string)
    requires Inputs(a + b) == Inputs(a) + Inputs(b)
    ensures Inputs(a + (b + [line])) == Inputs(a) + Inputs(b + [line])
  {
    hide Inputs, InputOf;
    InputsLast(a + b, line);
    InputsLast(b, line);
    Regroup(a, b, line);
    Regroup(Inputs(a), Inputs(b), InputOf(line));
  }

  lemma {:induction false} InputsAppend(a: seq<string>, b: seq<string>)
    ensures Inputs(a + b) == Inputs(a) + Inputs(b)
  {
    if b == [] {
      assert a + b == a;
    } else {
      hide Inputs;
      var c, line := b[..|b| - 1], b[|b| - 1];
      InputsAppend(a, c);
      InputsAppendLast(a, c, line);
      assert b == c + [line];
    }
  }

  lemma {:induction false} InputsAt(lines: seq<string>, i: nat)
    requires i < |lines|
    ensures Inputs(lines)[i] == InputOf(lines[i]) && Inputs(lines)[..i] == Inputs(lines[..i])
  {
    hide InputOf;
    var r := lines[..|lines| - 1];
    if i < |r| {
      InputsAt(r, i);
      assert r[..i] == lines[..i];
    }
  }

  /** One step of the session: a line of data, or a command. */
  function Step(v: View, next: Input, reply: string): Outcome {
    if v.state == MailData then ReadData(v, next.line, reply) else Act(v, next.read)
  }

  /** smtp_process_command; `reply` is what the reply buffer holds before. */
  function Process(v: View, command: string, reply: string): Outcome {
    Step(v, InputOf(command), reply)
  }

  /** The state and reply buffer after a sequence of lines, the replies sent and the envelopes completed on the way. */
  datatype Served = Served(view: View, reply: string, sent: seq<string>, saved: seq<Envelope>)
  {
    function Then(o: Outcome): Served {
      Served(o.view, o.reply, sent + [o.reply], saved + if o.saved.Some? then [o.saved.value] else [])
    }
  }

  function Serve(v: View, reply: string, ins: seq<Input>): Served {
    if ins == [] then Served(v, reply, [], [])
    else
      var r := Serve(v, reply, ins[..|ins| - 1]);
      r.Then(Step(r.view, ins[|ins| - 1], r.reply))
  }

  lemma ServeLast(v: View, reply: string, ins: seq<Input>, next: Input)
    ensures var r := Serve(v, reply, ins); Serve(v, reply, ins + [next]) == r.Then(Step(r.view, next, r.reply))
  {
    assert (ins + [next])[..|ins|] == ins;
  }
}
