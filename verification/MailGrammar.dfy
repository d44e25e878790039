/**
 * The address grammar of server/src/smtp.c: what the regular expressions match, and a recogniser
 * that stands in for `regexec`.
 */
module MailGrammar {
  import opened Wrappers
  import opened StringUtils

  // the bracket expression [0-9a-zA-Z\-]: inside it the backslash is a member itself
  predicate AtomChar(c: char) {
    '0' <= c <= '9' || 'a' <= c <= 'z' || 'A' <= c <= 'Z' || c == '\\' || c == '-'
  }

  predicate Atom(s: string) {
    s != "" && forall i :: 0 <= i < |s| ==> AtomChar(s[i])
  }

  /** The characters of an atom are digits, letters, the backslash and the hyphen. */
  lemma AtomCharMeans(c: char)
    ensures AtomChar(c) <==>
      c in "0123456789" || c in "abcdefghijklmnopqrstuvwxyz" || c in "ABCDEFGHIJKLMNOPQRSTUVWXYZ" || c == '\\' || c == '-'
  {
    Among("0123456789", c);
    SmallLetter(c);
    CapitalLetter(c);
  }

  lemma SmallLetter(c: char)
    ensures c in "abcdefghijklmnopqrstuvwxyz" <==> 'a' <= c <= 'z'
  {
    Among("abcdefghijklmnopqrstuvwxyz", c);
  }

  lemma CapitalLetter(c: char)
    ensures c in "ABCDEFGHIJKLMNOPQRSTUVWXYZ" <==> 'A' <= c <= 'Z'
  {
    Among("ABCDEFGHIJKLMNOPQRSTUVWXYZ", c);
  }

  /** Of a string without gaps. */
  lemma {:induction false} Among(s: string, c: char)
    requires s != "" && forall i :: 0 <= i < |s| ==> s[i] as int == s[0] as int + i
    ensures c in s <==> s[0] <= c <= s[|s| - 1]
  {
    if s[0] <= c <= s[|s| - 1] {
      assert s[c as int - s[0] as int] == c;
    }
  }

  /** atom(.atom)* */
  ghost predicate IsDomain(s: string) {
    Atom(s) || exists i :: 0 <= i < |s| && s[i] == '.' && Atom(s[..i]) && IsDomain(s[i + 1..])
  }

  /** domain@domain */
  ghost predicate IsMail(s: string) {
    exists i :: 0 <= i < |s| && s[i] == '@' && IsDomain(s[..i]) && IsDomain(s[i + 1..])
  }

  /** `inAtom` tells whether the atom being read has begun. */
  predicate Domain(s: string, inAtom: bool) {
    if s == "" then inAtom
    else if s[0] == '.' then inAtom && Domain(s[1..], false)
    else AtomChar(s[0]) && Domain(s[1..], true)
  }

  function IndexOf(s: string, c: char): (r: Option<nat>)
    ensures match r
      case None => c !in s
      case Some(k) => k < |s| && s[k] == c && c !in s[..k]
  {
    if s == "" then None
    else if s[0] == c then Some(0)
    else match IndexOf(s[1..], c)
      case None => None
      case Some(k) => assert s[..k + 1] == [s[0]] + s[1..][..k]; Some(k + 1)
  }

  lemma FirstAt(s: string, c: char, i: nat)
    requires i < |s| && s[i] == c && c !in s[..i]
    ensures IndexOf(s, c) == Some(i)
  {
    var k := IndexOf(s, c).value;
    assert forall j :: 0 <= j < k ==> s[j] == s[..k][j];
    assert forall j :: 0 <= j < i ==> s[j] == s[..i][j];
  }

  predicate Mail(s: string) {
    match IndexOf(s, '@')
    case None => false
    case Some(k) => Domain(s[..k], false) && Domain(s[k + 1..], false)
  }

  const MAIL_FROM := "MAIL FROM:<"
  const RCPT_TO := "RCPT TO:<"

  /** The address between `head` and the first `>`. */
  function Argument(s: string, head: string): (r: Option<string>)
    ensures r.Some? ==> |head| + |r.value| < |s|
  {
    if !StartsWith(s, head, true) then None
    else match IndexOf(s[|head|..], '>')
      case None => None
      case Some(k) => if Mail(s[|head|..][..k]) then Some(s[|head|..][..k]) else None
  }

  /** ^MAIL FROM:<mail>.*$ with the captured group */
  function MailFrom(s: string): Option<string> {
    Argument(s, MAIL_FROM)
  }

  /** ^RCPT TO:<mail>$ with the captured group */
  function RcptTo(s: string): Option<string> {
    var a := Argument(s, RCPT_TO);
    if a.Some? && |RCPT_TO| + |a.value| + 1 == |s| then a else None
  }

  // ---------- the recogniser decides the grammar ----------

  lemma {:induction false} AtomRuns(s: string, inAtom: bool)
    requires forall i :: 0 <= i < |s| ==> AtomChar(s[i])
    ensures Domain(s, inAtom) <==> inAtom || s != ""
  {
    if s != "" {
      AtomRuns(s[1..], true);
    }
  }

  lemma {:induction false} DotSplits(s: string, i: nat, inAtom: bool)
    requires i < |s| && s[i] == '.' && forall j :: 0 <= j < i ==> AtomChar(s[j])
    ensures Domain(s, inAtom) <==> (inAtom || i > 0) && Domain(s[i + 1..], false)
  {
    if i > 0 {
      DotSplits(s[1..], i - 1, true);
      assert s[1..][i..] == s[i + 1..];
    }
  }

  lemma {:induction false} DomainChars(s: string, inAtom: bool)
    requires Domain(s, inAtom)
    ensures forall i :: 0 <= i < |s| ==> AtomChar(s[i]) || s[i] == '.'
  {
    if s != "" {
      DomainChars(s[1..], s[0] != '.');
      assert forall i :: 0 < i < |s| ==> s[i] == s[1..][i - 1];
    }
  }

  lemma {:induction false} DomainMeans(s: string)
    ensures Domain(s, false) <==> IsDomain(s)
    decreases |s|
  {
    match IndexOf(s, '.') {
      case None =>
        if Domain(s, false) {
          DomainChars(s, false);
        } else if forall i :: 0 <= i < |s| ==> AtomChar(s[i]) {
          AtomRuns(s, false);
        }
      case Some(k) =>
        DomainMeans(s[k + 1..]);
        if Domain(s, false) {
          DomainChars(s, false);
          assert forall i :: 0 <= i < k ==> s[i] == s[..k][i];
          DotSplits(s, k, false);
          assert Atom(s[..k]);
        }
        if IsDomain(s) {
          assert !AtomChar(s[k]) && !Atom(s);
          var i :| 0 <= i < |s| && s[i] == '.' && Atom(s[..i]) && IsDomain(s[i + 1..]);
          FirstAt(s, '.', i);
          assert forall j :: 0 <= j < i ==> s[j] == s[..i][j];
          DotSplits(s, i, false);
        }
    }
  }

  lemma MailMeans(s: string)
    ensures Mail(s) <==> IsMail(s)
  {
    if Mail(s) {
      var k := IndexOf(s, '@').value;
      DomainMeans(s[..k]);
      DomainMeans(s[k + 1..]);
    }
    if IsMail(s) {
      var i :| 0 <= i < |s| && s[i] == '@' && IsDomain(s[..i]) && IsDomain(s[i + 1..]);
      DomainMeans(s[..i]);
      DomainMeans(s[i + 1..]);
      DomainChars(s[..i], false);
      FirstAt(s, '@', i);
    }
  }

  lemma MailChars(s: string)
    requires Mail(s)
    ensures forall i :: 0 <= i < |s| ==> AtomChar(s[i]) || s[i] == '.' || s[i] == '@'
  {
    var k := IndexOf(s, '@').value;
    DomainChars(s[..k], false);
    DomainChars(s[k + 1..], false);
    forall i | 0 <= i < |s|
      ensures AtomChar(s[i]) || s[i] == '.' || s[i] == '@'
    {
      if i < k {
        assert s[i] == s[..k][i];
      } else if i > k {
        assert s[i] == s[k + 1..][i - k - 1];
      }
    }
  }

  /** The captured group is the one address that fits between `head` and a `>`. */
  lemma ArgumentMeans(s: string, head: string, m: string)
    ensures Argument(s, head) == Some(m) <==>
      StartsWith(s, head, true) && IsMail(m) && (m + ">") <= s[|head|..]
  {
    if StartsWith(s, head, true) {
      var t := s[|head|..];
      MailMeans(m);
      if Argument(s, head) == Some(m) {
        assert t[..|m| + 1] == m + ">";
      }
      if IsMail(m) && (m + ">") <= t {
        MailChars(m);
        assert t[..|m|] == (m + ">")[..|m|] == m;
        assert t[|m|] == (m + ">")[|m|];
        FirstAt(t, '>', |m|);
      }
    }
  }

  /** A command word, an address in brackets, and what follows. */
  predicate Written(s: string, word: string, m: string, rest: string) {
    Begins(s, word) && s[|word|..] == m + ">" + rest
  }

  lemma ArgumentWritten(s: string, word: string, m: string)
    ensures Argument(s, word) == Some(m) <==> IsMail(m) && exists rest :: Written(s, word, m, rest)
  {
    ArgumentMeans(s, word, m);
    StartsWithMeans(s, word);
    if Argument(s, word) == Some(m) {
      var t := s[|word|..];
      assert t == m + ">" + t[|m| + 1..];
      assert Written(s, word, m, t[|m| + 1..]);
    }
  }

  /** Behind the sender any text may follow, */
  lemma MailFromMeans(s: string, m: string)
    ensures MailFrom(s) == Some(m) <==> IsMail(m) && exists rest :: Written(s, "MAIL FROM:<", m, rest)
  {
    ArgumentWritten(s, "MAIL FROM:<", m);
  }

  /** behind a recipient none. */
  lemma RcptToMeans(s: string, m: string)
    ensures RcptTo(s) == Some(m) <==> IsMail(m) && Written(s, "RCPT TO:<", m, "")
  {
    ArgumentWritten(s, "RCPT TO:<", m);
    if RcptTo(s) == Some(m) {
      var rest :| Written(s, "RCPT TO:<", m, rest);
      assert |m + ">" + rest| == |m| + 1;
    }
  }
}
