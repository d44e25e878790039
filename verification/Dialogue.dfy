/**
 * The client's six pieces as the server sees them: which lines they are, what each line does to the
 * session, and what is answered.
 */
module Dialogue {
  import opened Wrappers
  import opened Strings
  import opened StringUtils
  import opened MailGrammar
  import opened SmtpCommands
  import opened Framing
  import opened Server
  import opened SmtpRuns
  import C = ClientFsm

  /** The lines of a text: cut at its line ends, the last one being what follows the last line end. */
  function TextLines(text: seq<string>): (lines: seq<string>)
    ensures |lines| >= 1
  {
    Cut(Concat(text)).0 + [Cut(Concat(text)).1]
  }

  /** Addresses in the grammar of the server, and a text that survives the framing. */
  predicate Framable(m: C.Letter) {
    && Mail(m.from) && Mail(m.to)
    && Concat(m.text) != "" && NUL !in Concat(m.text)
    && NoDoubleCr(Concat(m.text)) && Concat(m.text)[|Concat(m.text)| - 1] != '\r'
  }

  /** There is none of the dot-stuffing of section 4.5.2 of RFC 5321, so no line of the text may be a single dot. */
  predicate Dotless(m: C.Letter) {
    forall i :: 0 <= i < |TextLines(m.text)| ==> TextLines(m.text)[i] != "."
  }

  predicate Sendable(m: C.Letter) {
    Framable(m) && Dotless(m)
  }

  /** They are the one split of the text. */
  lemma TextLinesAre(m: C.Letter, lines: seq<string>, rest: string)
    requires Framable(m)
    ensures IsSplit(Concat(m.text), lines, rest) <==> TextLines(m.text) == lines + [rest]
  {
    var t := Concat(m.text);
    CutGlue(t);
    SingleSeen(t);
    CutClean(t);
    if IsSplit(t, lines, rest) {
      SplitUnique(t, lines, rest, Cut(t).0, Cut(t).1);
    }
    if TextLines(m.text) == lines + [rest] {
      assert lines == (lines + [rest])[..|lines|] == Cut(t).0 && rest == (lines + [rest])[|lines|] == Cut(t).1;
    }
  }

  /** The lines of piece `i` of the script. */
  function Group(m: C.Letter, i: nat): (lines: seq<string>)
    requires i < 6
    ensures |lines| >= 1
  {
    if i == 0 then ["EHLO " + C.DOMAIN]
    else if i == 1 then ["MAIL FROM:<" + m.from + ">"]
    else if i == 2 then ["RCPT TO:<" + m.to + ">"]
    else if i == 3 then ["DATA"]
    else if i == 4 then TextLines(m.text) + ["."]
    else ["QUIT"]
  }

  /** A piece that consists of whole lines. */
  predicate Framed(piece: string, lines: seq<string>) {
    IsSplit(piece, lines, "") && NoDoubleCr(piece) && NUL !in piece
  }

  /** Without carriage returns and NULs. */
  predicate Plain(s: string) {
    forall i :: 0 <= i < |s| ==> s[i] != '\r' && s[i] != NUL
  }

  lemma PlainLine(s: string)
    requires Plain(s)
    ensures Framed(s + "\r\n", [s])
  {
    var p := s + "\r\n";
    assert [s][1..] == [] && Glue([s]) == s + "\r\n" + "";
    assert p == Glue([s]) + "";
    assert forall i :: 0 <= i < |s| ==> p[i] == s[i];
  }

  lemma MailPlain(a: string)
    requires Mail(a)
    ensures Plain(a)
  {
    MailChars(a);
  }

  lemma ShortPieces(m: C.Letter, i: nat)
    requires Framable(m) && i < 6 && i != 4
    ensures Framed(C.ScriptOf(m).pieces[i], Group(m, i))
  {
    MailPlain(m.from);
    MailPlain(m.to);
    var line := Group(m, i)[0];
    PlainLine(line);
    assert C.ScriptOf(m).pieces[i] == line + "\r\n";
  }

  lemma BodyGlue(t: string, lines: seq<string>, rest: string)
    requires t == Glue(lines) + rest
    ensures t + "\r\n.\r\n" == Glue(lines + [rest] + ["."])
  {
    GlueAppend(lines, [rest]);
    GlueAppend(lines + [rest], ["."]);
    assert Glue([rest]) == rest + "\r\n" + Glue([]) && Glue(["."]) == ".\r\n" + Glue([]);
    assert Glue(lines) + (rest + "\r\n") + ".\r\n" == (Glue(lines) + rest) + "\r\n.\r\n";
  }

  lemma BodyClean(t: string)
    requires NoDoubleCr(t) && NUL !in t && (t != "" ==> t[|t| - 1] != '\r')
    ensures NoDoubleCr(t + "\r\n.\r\n") && NUL !in t + "\r\n.\r\n"
  {
    var p := t + "\r\n.\r\n";
    assert forall i :: 0 <= i < |t| ==> p[i] == t[i];
  }

  lemma BodyPiece(m: C.Letter)
    requires Framable(m)
    ensures Framed(C.BodyText(m.text), Group(m, 4))
  {
    var t := Concat(m.text);
    var (lines, rest) := Cut(t);
    CutGlue(t);
    SingleSeen(t);
    CutClean(t);
    BodyGlue(t, lines, rest);
    BodyClean(t);
    assert Glue(Group(m, 4)) + "" == Glue(Group(m, 4));
  }

  /** Every piece is made of the lines of its group. */
  lemma PieceFramed(m: C.Letter, i: nat)
    requires Framable(m) && i < 6
    ensures Framed(C.ScriptOf(m).pieces[i], Group(m, i))
  {
    if i == 4 {
      BodyPiece(m);
    } else {
      ShortPieces(m, i);
    }
  }

  // ---------- what the lines do ----------

  /** What the server has to hold in the end. */
  function Expected(m: C.Letter): Envelope {
    Envelope(Some(m.from), [m.to], StoredAll(TextLines(m.text)))
  }

  /** The session after the groups before `i` and `n` lines of group `i`. */
  function At(m: C.Letter, i: nat, n: nat): View
    requires i <= 6 && (i == 4 ==> n <= |TextLines(m.text)|)
  {
    if i == 0 then Reset(Initial)
    else if i == 1 then Reset(Established)
    else if i == 2 then View(MailRcpt, Envelope(Some(m.from), [], []))
    else if i == 3 then View(MailRcpt, Envelope(Some(m.from), [m.to], []))
    else if i == 4 then View(MailData, Envelope(Some(m.from), [m.to], StoredAll(TextLines(m.text)[..n])))
    else if i == 5 then Reset(Established)
    else Reset(Initial)
  }

  /** The answer to a complete piece. */
  function Answer(i: nat): string {
    if i == 0 then "250\r\n"
    else if i == 1 then "250 OK\r\n"
    else if i == 2 then "250\r\n"
    else if i == 3 then "354\r\n"
    else if i == 4 then "250 OK\r\n"
    else "221 OK\r\n"
  }

  lemma TrimTight(s: string)
    requires s != "" && !IsSpace(s[0]) && !IsSpace(s[|s| - 1])
    ensures Trim(s) == s
  {
  }

  lemma ParseAddress(head: string, a: string)
    requires Mail(a)
    ensures Argument(head + a + ">", head) == Some(a)
  {
    var s := head + a + ">";
    MailMeans(a);
    assert s[|head|..] == a + ">";
    assert forall i :: 0 <= i < |head| ==> s[i] == head[i];
    ArgumentMeans(s, head, a);
  }

  lemma OtherLetter(c: string, word: string)
    requires c != "" && word != "" && ToLower(c[0]) != ToLower(word[0])
    ensures !StartsWith(c, word, true)
  {
  }

  lemma NotBefore(c: string, first: char)
    requires c != "" && c[0] == first && first in ['R', 'D', 'Q']
    ensures !StartsWith(c, "EHLO", true) && !StartsWith(c, "HELO", true) && !StartsWith(c, "MAIL", true)
  {
    OtherLetter(c, "EHLO");
    OtherLetter(c, "HELO");
    OtherLetter(c, "MAIL");
  }

  lemma ParseEhlo()
    ensures Parse(Trim("EHLO " + C.DOMAIN)) == Hello
  {
    TrimTight("EHLO " + C.DOMAIN);
  }

  lemma ParseMail(from: string)
    requires Mail(from)
    ensures Parse(Trim("MAIL FROM:<" + from + ">")) == MailFor(Some(from))
  {
    var s := "MAIL FROM:<" + from + ">";
    TrimTight(s);
    ParseAddress(MAIL_FROM, from);
    assert s[0] == 'M';
  }

  lemma ParseRcpt(to: string)
    requires Mail(to)
    ensures Parse(Trim("RCPT TO:<" + to + ">")) == RcptFor(Some(to))
  {
    var s := "RCPT TO:<" + to + ">";
    TrimTight(s);
    ParseAddress(RCPT_TO, to);
    NotBefore(s, 'R');
  }

  lemma ParseData()
    ensures Parse(Trim("DATA")) == Data(true)
  {
    TrimTight("DATA");
    NotBefore("DATA", 'D');
    OtherLetter("DATA", "RCPT");
  }

  lemma ParseQuit()
    ensures Parse(Trim("QUIT")) == Quit(true)
  {
    TrimTight("QUIT");
    NotBefore("QUIT", 'Q');
    OtherLetter("QUIT", "RCPT");
    OtherLetter("QUIT", "DATA");
    OtherLetter("QUIT", "RSET");
  }

  /** Everything one line of the dialogue does, if the reply buffer is empty before. */
  function Effect(m: C.Letter, i: nat, n: nat): Outcome
    requires i < 6 && n < |Group(m, i)|
  {
    if i == 4 && n < |TextLines(m.text)| then Outcome(At(m, 4, n + 1), "", false, None)
    else Outcome(At(m, i + 1, 0), Answer(i), i == 5, if i == 4 then Some(Expected(m)) else None)
  }

  lemma ShortStep(m: C.Letter, i: nat)
    requires Framable(m) && i < 6 && i != 4
    ensures Act(At(m, i, 0), if i == 0 then Hello else if i == 1 then MailFor(Some(m.from)) else if i == 2 then RcptFor(Some(m.to))
                             else if i == 3 then Data(true) else Quit(true)) == Effect(m, i, 0)
  {
    assert TextLines(m.text)[..0] == [];
  }

  lemma ParseOf(m: C.Letter, i: nat)
    requires Framable(m) && i < 6 && i != 4
    ensures Parse(Trim(Group(m, i)[0])) ==
      if i == 0 then Hello else if i == 1 then MailFor(Some(m.from)) else if i == 2 then RcptFor(Some(m.to))
      else if i == 3 then Data(true) else Quit(true)
  {
    if i == 0 {
      ParseEhlo();
    } else if i == 1 {
      ParseMail(m.from);
    } else if i == 2 {
      ParseRcpt(m.to);
    } else if i == 3 {
      ParseData();
    } else {
      ParseQuit();
    }
  }

  /** The first line of a text that is a single dot, or else the dot behind the text. */
  function FirstDot(lines: seq<string>): (d: nat)
    ensures d <= |lines| && (d < |lines| ==> lines[d] == ".") && forall i :: 0 <= i < d ==> lines[i] != "."
  {
    if lines == [] || lines[0] == "." then 0
    else
      var d := FirstDot(lines[1..]);
      assert forall i :: 0 < i < 1 + d ==> lines[i] == lines[1..][i - 1];
      1 + d
  }

  function Dot(m: C.Letter): (d: nat)
    ensures d <= |TextLines(m.text)| && (d == |TextLines(m.text)| <==> Dotless(m))
  {
    FirstDot(TextLines(m.text))
  }

  /** The envelope that the first dot completes. */
  function Received(m: C.Letter): Envelope {
    Envelope(Some(m.from), [m.to], StoredAll(TextLines(m.text)[..Dot(m)]))
  }

  lemma {:induction false} StoredLength(l: seq<string>)
    ensures |StoredAll(l)| == |l|
  {
    if l != [] {
      StoredLength(l[..|l| - 1]);
    }
  }

  /** It is the one that was sent exactly if no line of the text is a single dot. */
  lemma ReceivedWhole(m: C.Letter)
    ensures Received(m) == Expected(m) <==> Dotless(m)
  {
    var l := TextLines(m.text);
    StoredLength(l);
    StoredLength(l[..Dot(m)]);
    assert Dotless(m) ==> l[..Dot(m)] == l;
  }

  lemma BodyStep(m: C.Letter, n: nat)
    requires n <= Dot(m) && (n < Dot(m) || Dotless(m))
    ensures ReadData(At(m, 4, n), Group(m, 4)[n], "") == Effect(m, 4, n)
  {
    hide StoredAll, TextLines, Mail;
    var l := TextLines(m.text);
    if n < |l| {
      assert l[n] != ".";
      assert l[..n + 1] == l[..n] + [l[n]];
      StoredLast(l[..n], l[n]);
    } else {
      assert l[..n] == l;
    }
  }

  /** Line `n` of group `i`, read as `c`, has the effect told. */
  predicate PlaysAt(m: C.Letter, i: nat, n: nat, c: Input)
    requires i < 6 && n < |Group(m, i)|
  {
    Step(At(m, i, n), c, "") == Effect(m, i, n)
  }

  /** So have all lines of the group before line `e`. */
  ghost predicate Plays(m: C.Letter, i: nat, ins: seq<Input>, e: nat)
    requires i < 6
  {
    |ins| == |Group(m, i)| && e <= |ins| && forall n {:trigger PlaysAt(m, i, n, ins[n])} :: 0 <= n < e ==> PlaysAt(m, i, n, ins[n])
  }

  lemma GroupPlays(m: C.Letter, i: nat, e: nat)
    requires Framable(m) && i < 6 && e <= |Group(m, i)| && (i == 4 && !Dotless(m) ==> e <= Dot(m))
    ensures Plays(m, i, Inputs(Group(m, i)), e)
  {
    var ins := Inputs(Group(m, i));
    forall n | 0 <= n < e
      ensures PlaysAt(m, i, n, ins[n])
    {
      InputsAt(Group(m, i), n);
      if i == 4 {
        BodyStep(m, n);
      } else {
        ShortStep(m, i);
        ParseOf(m, i);
      }
    }
  }

  // ---------- several lines at once ----------

  /** From line `n` up to `e` of a group: silence until the last line, which brings the answer. */
  ghost predicate GroupServed(m: C.Letter, i: nat, n: nat, e: nat, r: Served)
    requires i < 6 && n <= e <= |Group(m, i)| && n < |Group(m, i)|
  {
    if e < |Group(m, i)| then
      r == Served(At(m, i, e), "", r.sent, []) && Concat(r.sent) == ""
    else
      r == Served(At(m, i + 1, 0), Answer(i), r.sent, if i == 4 then [Expected(m)] else []) && Concat(r.sent) == Answer(i)
  }

  lemma GroupStep(m: C.Letter, i: nat, n: nat, e: nat, r: Served)
    requires i < 6 && n <= e < |Group(m, i)| && GroupServed(m, i, n, e, r)
    ensures GroupServed(m, i, n, e + 1, r.Then(Effect(m, i, e)))
  {
    ConcatLast(r.sent, Effect(m, i, e).reply);
  }

  lemma PlaysLine(m: C.Letter, i: nat, ins: seq<Input>, v: View, n: nat, e: nat)
    requires i < 6 && n <= e < |Group(m, i)| && Plays(m, i, ins, e + 1)
    requires Serve(v, "", ins[n..e]).view == At(m, i, e) && Serve(v, "", ins[n..e]).reply == ""
    ensures Serve(v, "", ins[n..e + 1]) == Serve(v, "", ins[n..e]).Then(Effect(m, i, e))
  {
    assert PlaysAt(m, i, e, ins[e]);
    hide Step, At, Effect, Serve;
    ServeSlice(v, ins, n, e, Effect(m, i, e));
  }

  lemma ServeSlice(v: View, ins: seq<Input>, n: nat, e: nat, o: Outcome)
    requires n <= e < |ins|
    requires var r := Serve(v, "", ins[n..e]); o == Step(r.view, ins[e], r.reply)
    ensures Serve(v, "", ins[n..e + 1]) == Serve(v, "", ins[n..e]).Then(o)
  {
    hide Serve, Step;
    assert ins[n..e + 1] == ins[n..e] + [ins[e]];
    ServeLast(v, "", ins[n..e], ins[e]);
  }

  lemma GroupNone(m: C.Letter, i: nat, n: nat)
    requires i < 6 && n < |Group(m, i)|
    ensures GroupServed(m, i, n, n, Serve(At(m, i, n), "", []))
  {
    assert Concat([]) == "";
  }

  lemma {:induction false} GroupServe(m: C.Letter, i: nat, ins: seq<Input>, n: nat, e: nat)
    requires i < 6 && n <= e <= |Group(m, i)| && n < |Group(m, i)| && Plays(m, i, ins, e)
    ensures GroupServed(m, i, n, e, Serve(At(m, i, n), "", ins[n..e]))
    decreases e
  {
    hide Serve, At, Effect, Expected, Answer, Step;
    if n == e {
      assert ins[n..e] == [];
      GroupNone(m, i, n);
    } else {
      hide GroupServed;
      GroupServe(m, i, ins, n, e - 1);
      PlaysLine(m, i, ins, At(m, i, n), n, e - 1);
      GroupStep(m, i, n, e - 1, Serve(At(m, i, n), "", ins[n..e - 1]));
    }
  }

  lemma PlaysLess(m: C.Letter, i: nat, ins: seq<Input>, e: nat, k: nat)
    requires i < 6 && k < e && Plays(m, i, ins, e)
    ensures Plays(m, i, ins, k) && PlaysAt(m, i, k, ins[k])
  {
  }

  lemma SlicePrefix(ins: seq<Input>, n: nat, e: nat, x: nat)
    requires n + x < e <= |ins|
    ensures ins[n..e][..x] == ins[n..n + x] && ins[n..e][x] == ins[n + x]
  {
  }

  /** Only QUIT closes the connection. */
  lemma GroupClosesIff(m: C.Letter, i: nat, ins: seq<Input>, n: nat, e: nat)
    requires i < 6 && n <= e <= |Group(m, i)| && Plays(m, i, ins, e)
    ensures (exists x :: 0 <= x < |ins[n..e]| && Closes(At(m, i, n), ins[n..e], x)) <==> i == 5 && n < e
  {
    var cs := ins[n..e];
    hide Serve, Step, Effect, GroupServed, Closes, PlaysAt, Plays, At, Expected, Act, TextLines, Answer;
    forall x | 0 <= x < |cs|
      ensures Closes(At(m, i, n), cs, x) <==> i == 5
    {
      PlaysLess(m, i, ins, e, n + x);
      GroupServe(m, i, ins, n, n + x);
      SlicePrefix(ins, n, e, x);
    }
    assert n < e ==> (Closes(At(m, i, n), cs, 0) <==> i == 5);
  }

  // ---------- a piece that arrives in chunks ----------

  lemma GlueNonEmpty(lines: seq<string>)
    ensures lines != [] ==> !NoCrlf(Glue(lines))
  {
    if lines != [] {
      var s := Glue(lines);
      assert CrlfAt(s, |lines[0]|);
    }
  }

  /** Lines cut from the front of whole lines are the first of them. */
  lemma {:induction false} PrefixLines(lines: seq<string>, cs: seq<string>, rest: string)
    requires Glue(lines) == Glue(cs) + rest
    requires forall i :: 0 <= i < |lines| ==> NoCrlf(lines[i])
    requires forall i :: 0 <= i < |cs| ==> NoCrlf(cs[i])
    ensures cs <= lines && rest == Glue(lines[|cs|..])
    decreases |cs|
  {
    if cs != [] {
      var s := Glue(lines);
      assert s == cs[0] + "\r\n" + (Glue(cs[1..]) + rest);
      assert lines != [];
      assert s == Glue(lines) + "";
      SplitHead(s, lines, "");
      FirstCrlf(cs[0], Glue(cs[1..]) + rest);
      FirstUnique(s, CrlfAt, Some(|lines[0]|), Some(|cs[0]|));
      assert s[..|cs[0]|] == cs[0];
      assert s[|cs[0]| + 2..] == Glue(cs[1..]) + rest && s[|cs[0]| + 2..] == Glue(lines[1..]);
      PrefixLines(lines[1..], cs[1..], rest);
    }
  }

  lemma TailSevers(a: string, lines: seq<string>, tail: string, b: string)
    requires a == Glue(lines) + tail
    ensures Severs(tail, b) <==> Severs(a, b)
  {
    if tail == "" && lines != [] {
      GlueEnd(lines);
    }
  }

  lemma {:induction false} GlueEnd(lines: seq<string>)
    requires lines != []
    ensures Glue(lines) != "" && Glue(lines)[|Glue(lines)| - 1] == '\n'
  {
    if |lines| > 1 {
      GlueEnd(lines[1..]);
    }
  }

  /** A chunk from the middle of a piece yields the next lines of that piece, all of them if it is the rest. */
  lemma FeedWithin(piece: string, lines: seq<string>, a: string, chunk: string, b: string, n: nat, tail: string) returns (e: nat)
    requires Framed(piece, lines) && piece == a + chunk + b && chunk != "" && n <= |lines|
    requires IsSplit(a, lines[..n], tail) && !Severs(a, chunk)
    ensures n <= e <= |lines| && Feed(tail, chunk).0 == lines[n..e] && IsSplit(a + chunk, lines[..e], Feed(tail, chunk).1)
    ensures if b == "" then e == |lines| && Feed(tail, chunk).1 == "" else e < |lines|
  {
    var (cs, rest) := Feed(tail, chunk);
    var all := lines[..n] + cs;
    FeedMore(a, lines[..n], tail, chunk, piece, b);
    assert Glue(lines) == piece == (Glue(all) + rest) + b == Glue(all) + (rest + b);
    WithinLines(lines, all, rest, b);
    e := |all|;
    assert all == lines[..e];
    assert cs == all[n..] == lines[n..e];
  }

  lemma FeedMore(a: string, done: seq<string>, tail: string, chunk: string, piece: string, b: string)
    requires IsSplit(a, done, tail) && !Severs(a, chunk) && piece == a + chunk + b && NoDoubleCr(piece)
    ensures var (cs, rest) := Feed(tail, chunk); IsSplit(a + chunk, done + cs, rest)
  {
    hide Feed, Glue, AllSeen, NoDoubleCr;
    var (cs, rest) := Feed(tail, chunk);
    NoDoubleCrParts(a, chunk, b);
    FeedGlue(tail, chunk);
    TailSevers(a, done, tail, chunk);
    SingleSeen(chunk);
    FeedClean(tail, chunk);
    GlueAppend(done, cs);
    Associate(Glue(done), tail, chunk);
    Associate(Glue(done), Glue(cs), rest);
  }

  lemma NoDoubleCrParts(a: string, b: string, c: string)
    requires NoDoubleCr(a + b + c)
    ensures NoDoubleCr(b)
  {
    var s := a + b + c;
    assert forall i :: 0 <= i < |b| ==> b[i] == s[|a| + i];
  }

  /** Lines cut from a part of the piece are its first lines; all of them exactly if it is the whole. */
  lemma WithinLines(lines: seq<string>, cs: seq<string>, rest: string, b: string)
    requires NoDoubleCr(Glue(lines)) && Glue(lines) == Glue(cs) + (rest + b) && NoCrlf(rest)
    requires forall i :: 0 <= i < |lines| ==> NoCrlf(lines[i])
    requires forall i :: 0 <= i < |cs| ==> NoCrlf(cs[i])
    ensures cs <= lines
    ensures if b == "" then cs == lines && rest == "" else |cs| < |lines|
  {
    PrefixLines(lines, cs, rest + b);
    PrefixEnd(lines, cs, rest, b);
  }

  lemma PrefixEnd(lines: seq<string>, cs: seq<string>, rest: string, b: string)
    requires cs <= lines && rest + b == Glue(lines[|cs|..]) && NoCrlf(rest)
    ensures if b == "" then cs == lines && rest == "" else |cs| < |lines|
  {
    assert |rest + b| == |rest| + |b|;
    if b == "" {
      assert rest + b == rest;
      GlueNonEmpty(lines[|cs|..]);
    }
  }
}
