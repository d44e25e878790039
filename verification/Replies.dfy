/**
 * How the client reads replies: client/src/parser.c (`try_parse_message_part`, `parse_return_code`)
 * and `process_message` of client/src/client.c.
 */
module Replies {
  import opened Wrappers
  import opened StringUtils
  import opened Strings
  import opened ClientFsm

  predicate Digit(c: char) {
    '0' <= c <= '9'
  }

  /** atoi, without overflow: the strings here have three characters. */
  function Atoi(s: string): int {
    if s != "" && IsSpace(s[0]) then Atoi(s[1..])
    else if s != "" && s[0] == '-' then 0 - Digits(s[1..], 0)
    else if s != "" && s[0] == '+' then Digits(s[1..], 0)
    else Digits(s, 0)
  }

  function Digits(s: string, sum: nat): nat {
    if s != "" && Digit(s[0]) then Digits(s[1..], 10 * sum + (s[0] - '0') as nat) else sum
  }

  function ParseReturnCode(message: string): int
    requires |message| >= 3
  {
    Atoi(message[..3])
  }

  /** Negative, nothing yet, or positive. */
  function ProcessMessage(message: string): int {
    if |message| < 4 then -1
    else if message[3] == '-' then 0
    else
      var code := ParseReturnCode(message);
      if code < 200 || code > 600 then -1
      else if 200 <= code && code < 400 then 1
      else -1
  }

  /** The first line of a buffer, with its line end. */
  function Line(buf: string): (r: Option<string>)
    ensures r.Some? ==> r.value <= buf && |r.value| >= 2
  {
    match FindEos(buf, 0)
    case None => None
    case Some(k) => Some(buf[..k + 2])
  }

  /** strstr for CRLF */
  function FindEos(s: string, i: nat): (r: Option<nat>)
    requires i <= |s| && forall j :: 0 <= j < i ==> !CrlfAt(s, j)
    ensures First(s, CrlfAt, r)
    decreases |s| - i
  {
    if i == |s| then None else if CrlfAt(s, i) then Some(i) else FindEos(s, i + 1)
  }

  /** What one round of reading takes from the buffer and which event it raises. */
  function Take(buf: string): (string, Option<Event>)
    decreases |buf|
  {
    match Line(buf)
    case None => ("", None)
    case Some(line) =>
      var v := ProcessMessage(line);
      if v < 0 then (line, Some(BAD))
      else if v > 0 then (line, Some(OK))
      else var (more, e) := Take(buf[|line|..]); (line + more, e)
  }

  /**
   * The buffers the code can read: it stops at a final line, or runs out at the end of a line.
   * On an unfinished line it would look at a message that is not there.
   */
  predicate Readable(buf: string)
    decreases |buf|
  {
    buf != "" ==>
      match Line(buf)
      case None => false
      case Some(line) => ProcessMessage(line) == 0 ==> Readable(buf[|line|..])
  }

  // ---------- what that means ----------

  /** A line that announces another one (section 4.2.1 of RFC 5321). */
  predicate Continues(line: string) {
    |line| >= 4 && line[3] == '-'
  }

  /** A completed line: CRLF at its end and nowhere before. */
  predicate IsLine(line: string) {
    |line| >= 2 && First(line, CrlfAt, Some(|line| - 2))
  }

  /** The taken bytes are whole lines, all of them continued except a final one, which decides the event. */
  ghost predicate IsReply(taken: string, e: Option<Event>, lines: seq<string>) {
    && taken == Concat(lines)
    && (forall i :: 0 <= i < |lines| ==> IsLine(lines[i]))
    && (forall i :: 0 <= i < |lines| - 1 ==> Continues(lines[i]))
    && match e
       case None => lines != [] ==> Continues(lines[|lines| - 1])
       case Some(ev) => lines != [] && !Continues(lines[|lines| - 1]) && ev == Class(lines[|lines| - 1])
  }

  /** Replies 2yz and 3yz are positive, everything else is not. */
  function Class(line: string): Event {
    if |line| >= 4 && Digit(line[0]) && Digit(line[1]) && Digit(line[2]) && (line[0] == '2' || line[0] == '3') then OK else BAD
  }

  /** The numeric test is the test of the first digit, for anything that is there instead of a number too. */
  lemma CodeClass(line: string)
    requires |line| >= 4 && !Continues(line)
    ensures ProcessMessage(line) == if Class(line) == OK then 1 else -1
  {
    var t := line[..3];
    assert t[1..][1..] == [t[2]] && t[2..] == [t[2]];
    DigitsThree(t);
    AtoiSmall(t);
  }

  lemma DigitsThree(t: string)
    requires |t| == 3
    ensures Digits(t, 0) ==
      if !Digit(t[0]) then 0
      else if !Digit(t[1]) then Value(t[0])
      else if !Digit(t[2]) then 10 * Value(t[0]) + Value(t[1])
      else 100 * Value(t[0]) + 10 * Value(t[1]) + Value(t[2])
  {
    if Digit(t[0]) {
      assert Digits(t, 0) == Digits(t[1..], Value(t[0]));
      if Digit(t[1]) {
        var w := t[1..][1..];
        assert w == [t[2]] && w[1..] == "";
        assert Digits(t[1..], Value(t[0])) == Digits(w, 10 * Value(t[0]) + Value(t[1]));
        assert Digit(t[2]) ==> Digits(w, 10 * Value(t[0]) + Value(t[1])) == Digits(w[1..], 10 * (10 * Value(t[0]) + Value(t[1])) + Value(t[2]));
      } else {
        assert Digits(t[1..], Value(t[0])) == Value(t[0]);
      }
    }
  }

  function Value(c: char): nat
    requires Digit(c)
  {
    (c - '0') as nat
  }

  lemma DigitsTwo(t: string)
    requires |t| <= 2
    ensures Digits(t, 0) < 100
  {
    if |t| == 2 && Digit(t[0]) {
      assert t[1..] == [t[1]] && t[1..][1..] == "";
      assert Digits(t[1..], Value(t[0])) < 100;
    }
  }

  lemma {:induction false} AtoiTwo(t: string)
    requires |t| <= 2
    ensures Atoi(t) < 100
    decreases |t|
  {
    DigitsTwo(t);
    if t != "" {
      DigitsTwo(t[1..]);
      AtoiTwo(t[1..]);
    }
  }

  /** With anything but a digit in front the number is too small. */
  lemma AtoiSmall(t: string)
    requires |t| == 3
    ensures if Digit(t[0]) then Atoi(t) == Digits(t, 0) else Atoi(t) < 100
  {
    AtoiTwo(t[1..]);
    DigitsTwo(t[1..]);
  }

  lemma LineIs(buf: string)
    requires Line(buf).Some?
    ensures IsLine(Line(buf).value) && buf == Line(buf).value + buf[|Line(buf).value|..]
  {
    var line := Line(buf).value;
    assert forall i :: 0 <= i < |line| - 1 ==> (CrlfAt(line, i) <==> CrlfAt(buf, i));
  }

  lemma ReplyAfter(line: string, taken: string, e: Option<Event>, more: seq<string>)
    requires IsLine(line) && Continues(line) && IsReply(taken, e, more)
    ensures IsReply(line + taken, e, [line] + more)
  {
    ConcatFront(line, more);
  }

  lemma LastLine(line: string)
    requires IsLine(line) && ProcessMessage(line) != 0
    ensures IsReply(line, Some(if ProcessMessage(line) < 0 then BAD else OK), [line])
  {
    assert [line][..0] == [];
    if |line| >= 4 {
      CodeClass(line);
    }
  }

  /** One round of reading takes one reply, or whole announcing lines up to the end of the buffer. */
  lemma {:induction false} TakeReply(buf: string) returns (lines: seq<string>)
    requires Readable(buf)
    ensures var (taken, e) := Take(buf);
      IsReply(taken, e, lines) && taken <= buf && (e == None ==> taken == buf)
    decreases |buf|
  {
    if buf == "" {
      lines := [];
    } else {
      var line := Line(buf).value;
      LineIs(buf);
      if ProcessMessage(line) == 0 {
        var more := TakeReply(buf[|line|..]);
        lines := [line] + more;
        ReplyAfter(line, Take(buf[|line|..]).0, Take(buf[|line|..]).1, more);
      } else {
        lines := [line];
        LastLine(line);
      }
    }
  }

  /** Nothing else can be read: the round ends with an event or an empty buffer exactly on readable buffers. */
  lemma {:induction false} ReadableIff(buf: string)
    ensures Readable(buf) <==> Take(buf).1.Some? || Take(buf).0 == buf
    decreases |buf|
  {
    if Line(buf).Some? && ProcessMessage(Line(buf).value) == 0 {
      var line := Line(buf).value;
      ReadableIff(buf[|line|..]);
      assert buf == line + buf[|line|..];
      assert Take(buf).0 == buf <==> Take(buf[|line|..]).0 == buf[|line|..] by {
        assert Take(buf).0 == line + Take(buf[|line|..]).0;
        assert (line + Take(buf[|line|..]).0)[|line|..] == Take(buf[|line|..]).0;
      }
    }
  }
}
