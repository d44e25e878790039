/**
 * common/src/string_utils.c.
 *
 * A C string that is only read is its content as a `string` without NUL. A buffer that is written
 * is an `array<char>`; `Text` is the C string that starts at some offset in it.
 */
module StringUtils {
  import opened Wrappers

  const NUL := '\0'

  predicate Terminated(b: seq<char>, from: nat) {
    exists i :: from <= i < |b| && b[i] == NUL
  }

  /** The C string at offset `from` of a buffer. */
  function Text(b: seq<char>, from: nat): (s: string)
    requires Terminated(b, from)
    ensures from + |s| < |b| && NUL !in s && b[from..from + |s|] == s && b[from + |s|] == NUL
    decreases |b| - from
  {
    if b[from] == NUL then [] else [b[from]] + Text(b, from + 1)
  }

  /** What lies before the first NUL is the text. */
  lemma {:induction false} TextIs(b: seq<char>, from: nat, s: string)
    requires from + |s| < |b| && NUL !in s && b[from..from + |s|] == s && b[from + |s|] == NUL
    ensures Terminated(b, from) && Text(b, from) == s
    decreases |s|
  {
    if s != [] {
      assert b[from] == s[0];
      assert b[from + 1..from + 1 + |s[1..]|] == s[1..];
      TextIs(b, from + 1, s[1..]);
    }
  }

  // ---------- strcrlf ----------

  predicate CrlfAt(s: string, i: int) {
    0 <= i < |s| - 1 && s[i] == '\r' && s[i + 1] == '\n'
  }

  /** How many carriage returns stand directly before position `i`, without a gap. */
  function CrRun(s: string, i: nat): nat
    requires i <= |s|
  {
    if i > 0 && s[i - 1] == '\r' then 1 + CrRun(s, i - 1) else 0
  }

  /** The line ends `strcrlf` sees: those whose run of carriage returns is odd. */
  predicate Seen(s: string, i: int) {
    CrlfAt(s, i) && CrRun(s, i + 1) % 2 == 1
  }

  predicate First(s: string, p: (string, int) -> bool, r: Option<nat>) {
    match r
    case None => forall i :: 0 <= i < |s| ==> !p(s, i)
    case Some(k) => p(s, k) && forall i :: 0 <= i < k ==> !p(s, i)
  }

  method StrCrlf(s: string) returns (r: Option<nat>)
    ensures First(s, Seen, r)
  {
    var sp := 0;
    var half := false;  // `pp` stands behind the carriage return of the pattern
    while sp < |s|
      invariant 0 <= sp <= |s| && half == (CrRun(s, sp) % 2 == 1)
      invariant forall i {:trigger Seen(s, i)} :: 0 <= i < sp - 1 ==> !Seen(s, i)
    {
      if half && s[sp] == '\n' {
        return Some(sp - 1);
      }
      half := !half && s[sp] == '\r';
      sp := sp + 1;
    }
    return None;
  }

  /** The position `strcrlf` finds, as a function. */
  function Crlf(s: string): (r: Option<nat>)
    ensures First(s, Seen, r)
  {
    CrlfFrom(s, 0)
  }

  function CrlfFrom(s: string, i: nat): (r: Option<nat>)
    requires i <= |s| && forall j :: 0 <= j < i ==> !Seen(s, j)
    ensures First(s, Seen, r)
    decreases |s| - i
  {
    if i == |s| then None
    else if Seen(s, i) then Some(i)
    else CrlfFrom(s, i + 1)
  }

  lemma FirstUnique(s: string, p: (string, int) -> bool, r: Option<nat>, q: Option<nat>)
    requires First(s, p, r) && First(s, p, q)
    requires forall i :: p(s, i) ==> 0 <= i < |s|
    ensures r == q
  {
  }

  predicate NoDoubleCr(s: string) {
    forall i {:trigger s[i]} :: 0 <= i < |s| - 1 && s[i] == '\r' ==> s[i + 1] != '\r'
  }

  /** Without two carriage returns in a row it is a search for the first CRLF. */
  lemma CrlfIsFirst(s: string)
    requires NoDoubleCr(s)
    ensures forall i :: Seen(s, i) <==> CrlfAt(s, i)
    ensures First(s, CrlfAt, Crlf(s))
  {
    forall i
      ensures Seen(s, i) <==> CrlfAt(s, i)
    {
      if CrlfAt(s, i) {
        assert CrRun(s, i + 1) == 1 + CrRun(s, i);
        assert i > 0 ==> s[i - 1] != '\r';
      }
    }
  }

  /** In general it finds the first CRLF exactly when there is none or its run of carriage returns is odd. */
  lemma CrlfIsFirstIff(s: string, first: Option<nat>)
    requires First(s, CrlfAt, first)
    ensures Crlf(s) == first <==> first.None? || CrRun(s, first.value + 1) % 2 == 1
  {
    assert forall i :: Seen(s, i) ==> CrlfAt(s, i);
    if first.Some? && Seen(s, first.value) {
      FirstUnique(s, Seen, Crlf(s), first);
    }
  }

  // ---------- strtrim ----------

  predicate IsSpace(c: char) {
    c == ' ' || c == '\t' || c == '\n' || c == '\U{0B}' || c == '\U{0C}' || c == '\r'
  }

  /** `t` is `s` without the white space around it. */
  ghost predicate IsTrim(s: string, t: string) {
    exists i, j :: TrimAt(s, i, j) && t == s[i..j]
  }

  ghost predicate TrimAt(s: string, i: int, j: int) {
    && 0 <= i <= j <= |s|
    && (forall k :: 0 <= k < i || j <= k < |s| ==> IsSpace(s[k]))
    && (i < j ==> !IsSpace(s[i]) && !IsSpace(s[j - 1]))
  }

  /** There is only one way to trim a string. */
  lemma TrimUnique(s: string, t: string, u: string)
    requires IsTrim(s, t) && IsTrim(s, u)
    ensures t == u
  {
  }

  function Trim(s: string): (t: string)
    ensures IsTrim(s, t)
  {
    if s == [] then s
    else if IsSpace(s[0]) then TrimStep(s, true, s[1..]); Trim(s[1..])
    else if IsSpace(s[|s| - 1]) then TrimStep(s, false, s[..|s| - 1]); Trim(s[..|s| - 1])
    else assert TrimAt(s, 0, |s|); s
  }

  lemma TrimStep(s: string, front: bool, r: string)
    requires s != []
    requires if front then r == s[1..] && IsSpace(s[0]) else r == s[..|s| - 1] && IsSpace(s[|s| - 1])
    ensures forall t :: IsTrim(r, t) ==> IsTrim(s, t)
  {
    forall t | IsTrim(r, t)
      ensures IsTrim(s, t)
    {
      var i, j :| TrimAt(r, i, j) && t == r[i..j];
      TrimShift(s, if front then 1 else 0, r, i, j);
    }
  }

  lemma TrimShift(s: string, d: nat, r: string, i: int, j: int)
    requires |r| == |s| - 1 && d <= 1 && r == s[d..d + |r|] && IsSpace(s[if d == 1 then 0 else |r|])
    requires TrimAt(r, i, j)
    ensures IsTrim(s, r[i..j])
  {
    assert forall k :: 0 <= k < |s| && k != (if d == 1 then 0 else |r|) ==> s[k] == r[k - d];
    assert TrimAt(s, i + d, j + d) && r[i..j] == s[i + d..j + d];
  }

  /** Cutting the buffer `b` behind `end` leaves the trimmed text at `start`. */
  lemma Trimmed(s: string, start: nat, end: nat, b: seq<char>)
    requires TrimAt(s, start, end) && NUL !in s
    requires |s| < |b| && b[..end] == s[..end] && b[end] == NUL
    ensures Terminated(b, start) && Text(b, start) == Trim(s)
  {
    assert b[start..end] == b[..end][start..] == s[start..end];
    TrimUnique(s, s[start..end], Trim(s));
    TextIs(b, start, s[start..end]);
  }

  method StrTrim(str: array<char>) returns (start: nat)
    requires Terminated(str[..], 0)
    modifies str
    ensures start < str.Length && Terminated(str[..], start)
    ensures Text(str[..], start) == Trim(old(Text(str[..], 0)))
  {
    ghost var s := Text(str[..], 0);
    var c, end := 0, 0;
    start := 0;
    while str[c] != NUL
      invariant 0 <= c <= |s| && start <= end <= c
      invariant forall k :: 0 <= k < start || end <= k < c ==> IsSpace(s[k])
      invariant start == end ==> start == 0
      invariant start < end ==> !IsSpace(s[start]) && !IsSpace(s[end - 1])
      decreases |s| - c
    {
      assert c < |s| && str[c] == s[c];
      if !IsSpace(str[c]) {
        if start == end {
          start := c;
        }
        end := c + 1;
      }
      c := c + 1;
    }
    str[end] := NUL;
    Trimmed(s, start, end, str[..]);
  }

  // ---------- strstartswith ----------

  function ToLower(c: char): char {
    if 'A' <= c <= 'Z' then c - 'A' + 'a' else c
  }

  predicate SameChar(a: char, b: char, ignoreCase: bool) {
    if ignoreCase then ToLower(a) == ToLower(b) else a == b
  }

  predicate StartsWith(str: string, prefix: string, ignoreCase: bool) {
    |prefix| <= |str| && forall i :: 0 <= i < |prefix| ==> SameChar(str[i], prefix[i], ignoreCase)
  }

  /** The same character, or the two cases of one letter. */
  predicate EitherCase(a: char, b: char) {
    || a == b
    || ('A' <= a <= 'Z' && b as int == a as int + 32)
    || ('a' <= a <= 'z' && b as int == a as int - 32)
  }

  /** The characters of `word`, each letter in either case. */
  predicate Spells(s: string, word: string) {
    |s| == |word| && forall i :: 0 <= i < |s| ==> EitherCase(s[i], word[i])
  }

  predicate Begins(s: string, word: string) {
    |word| <= |s| && Spells(s[..|word|], word)
  }

  /** Ignoring case is to accept every spelling in either case, and no other. */
  lemma StartsWithMeans(s: string, word: string)
    ensures StartsWith(s, word, true) <==> Begins(s, word)
    ensures StartsWith(s, word, true) && |s| == |word| <==> Spells(s, word)
  {
    assert |s| == |word| ==> s[..|word|] == s;
  }

  predicate White(s: string) {
    forall i :: 0 <= i < |s| ==> s[i] in " \t\n\U{0B}\U{0C}\r"
  }

  /** What is left of a line is what stands between blanks, tabs and the like. */
  lemma TrimAround(a: string, s: string, b: string)
    requires White(a) && White(b) && (s != "" ==> !White(s[..1]) && !White(s[|s| - 1..]))
    ensures Trim(a + s + b) == s
  {
    var t := a + s + b;
    assert t[|a|..|a| + |s|] == s;
    assert forall k :: 0 <= k < |a| ==> t[k] == a[k];
    assert forall k :: 0 <= k < |b| ==> t[|a| + |s| + k] == b[k];
    assert s != "" ==> s[..1][0] == s[0] && s[|s| - 1..][0] == s[|s| - 1];
    if s == "" {
      assert t == a + b;
      assert TrimAt(t, 0, 0);
      assert t[0..0] == s;
      TrimUnique(t, s, Trim(t));
    } else {
      assert TrimAt(t, |a|, |a| + |s|);
      TrimUnique(t, s, Trim(t));
    }
  }

  method StrStartsWith(str: string, prefix: string, ignoreCase: bool) returns (r: bool)
    ensures r <==> StartsWith(str, prefix, ignoreCase)
  {
    var i := 0;
    while i < |str| && i < |prefix|
      invariant 0 <= i <= |str| && i <= |prefix|
      invariant forall k :: 0 <= k < i ==> SameChar(str[k], prefix[k], ignoreCase)
    {
      if ignoreCase {
        if ToLower(str[i]) != ToLower(prefix[i]) {
          return false;
        }
      } else if str[i] != prefix[i] {
        return false;
      }
      i := i + 1;
    }
    return i == |prefix|;
  }

  // ---------- strcat ----------

  /** strcat and strncat of all of `src`: behind the text already in the buffer. */
  method StrCat(dest: array<char>, src: string)
    requires Terminated(dest[..], 0) && NUL !in src
    requires |Text(dest[..], 0)| + |src| < dest.Length
    modifies dest
    ensures Terminated(dest[..], 0) && Text(dest[..], 0) == old(Text(dest[..], 0)) + src
  {
    ghost var s := Text(dest[..], 0);
    var end := 0;
    while dest[end] != NUL
      invariant 0 <= end <= |s|
      decreases |s| - end
    {
      end := end + 1;
    }
    assert end == |s|;
    for i := 0 to |src|
      invariant dest[..end + i] == s + src[..i]
    {
      dest[end + i] := src[i];
    }
    dest[end + |src|] := NUL;
    assert dest[..end + |src|] == s + src;
    TextIs(dest[..], 0, s + src);
  }
}
