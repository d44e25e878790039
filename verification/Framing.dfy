/**
 * How server_start cuts a byte stream that arrives in chunks into commands (server/src/server.c).
 */
module Framing {
  import opened Wrappers
  import opened StringUtils
  import opened Strings

  /** The complete lines of a chunk, as found by repeated `strcrlf` ... */
  function Cut(s: string): (r: (seq<string>, string))
    ensures |r.1| <= |s|
  {
    match Crlf(s)
    case None => ([], s)
    case Some(k) => var (lines, rest) := Cut(s[k + 2..]); ([s[..k]] + lines, rest)
  }

  /** ... where the first one continues the piece left over from earlier chunks: commands and new remainder. */
  function Feed(tail: string, chunk: string): (seq<string>, string) {
    var (lines, rest) := Cut(chunk);
    if lines == [] then ([], tail + rest) else ([tail + lines[0]] + lines[1..], rest)
  }

  /** A whole run of chunks. */
  function FeedAll(tail: string, chunks: seq<string>): (seq<string>, string)
    decreases |chunks|
  {
    if chunks == [] then ([], tail)
    else
      var (first, rest) := Feed(tail, chunks[0]);
      var (more, last) := FeedAll(rest, chunks[1..]);
      (first + more, last)
  }

  /** The lines with their line ends. */
  function Glue(lines: seq<string>): string {
    if lines == [] then "" else lines[0] + "\r\n" + Glue(lines[1..])
  }

  predicate NoCrlf(s: string) {
    forall i :: 0 <= i < |s| ==> !CrlfAt(s, i)
  }

  /** The division of a stream into lines at its line ends (section 2.3.8 of RFC 5321). */
  predicate IsSplit(s: string, lines: seq<string>, rest: string) {
    s == Glue(lines) + rest && NoCrlf(rest) && forall i :: 0 <= i < |lines| ==> NoCrlf(lines[i])
  }

  // ---------- nothing is lost ----------

  lemma {:induction false} CutGlue(s: string)
    ensures s == Glue(Cut(s).0) + Cut(s).1
  {
    match Crlf(s) {
      case None =>
      case Some(k) =>
        CutGlue(s[k + 2..]);
        assert s == s[..k] + "\r\n" + s[k + 2..];
        assert Cut(s).0[1..] == Cut(s[k + 2..]).0;
    }
  }

  lemma FeedGlue(tail: string, chunk: string)
    ensures tail + chunk == Glue(Feed(tail, chunk).0) + Feed(tail, chunk).1
  {
    CutGlue(chunk);
    var (lines, rest) := Cut(chunk);
    if lines != [] {
      assert ([tail + lines[0]] + lines[1..])[1..] == lines[1..];
      assert tail + (lines[0] + "\r\n" + Glue(lines[1..])) == tail + lines[0] + "\r\n" + Glue(lines[1..]);
      assert tail + (lines[0] + "\r\n" + Glue(lines[1..]) + rest) == tail + lines[0] + "\r\n" + Glue(lines[1..]) + rest;
    }
  }

  lemma {:induction false} GlueAppend(a: seq<string>, b: seq<string>)
    ensures Glue(a + b) == Glue(a) + Glue(b)
  {
    if a == [] {
      assert a + b == b;
    } else {
      assert (a + b)[1..] == a[1..] + b;
      GlueAppend(a[1..], b);
    }
  }

  /** However a stream is divided into chunks, the commands with their line ends and the remainder are the stream. */
  lemma {:induction false} FeedAllGlue(tail: string, chunks: seq<string>)
    ensures tail + Concat(chunks) == Glue(FeedAll(tail, chunks).0) + FeedAll(tail, chunks).1
    decreases |chunks|
  {
    if chunks == [] {
      assert tail + "" == "" + tail;
    } else {
      hide Feed, Glue;
      ConcatSplit(chunks);
      var (first, rest) := Feed(tail, chunks[0]);
      FeedGlue(tail, chunks[0]);
      FeedAllGlue(rest, chunks[1..]);
      var (more, last) := FeedAll(rest, chunks[1..]);
      GlueAppend(first, more);
      Associate(tail, chunks[0], Concat(chunks[1..]));
      Associate(Glue(first), rest, Concat(chunks[1..]));
      Associate(Glue(first), Glue(more), last);
    }
  }

  // ---------- which divisions into chunks are harmless ----------

  /** The boundary between `a` and `b` separates a carriage return from its line feed. */
  predicate Severs(a: string, b: string) {
    a != "" && b != "" && a[|a| - 1] == '\r' && b[0] == '\n'
  }

  predicate AllClean(r: (seq<string>, string)) {
    NoCrlf(r.1) && forall i :: 0 <= i < |r.0| ==> NoCrlf(r.0[i])
  }

  lemma NoCrlfConcat(a: string, b: string)
    ensures NoCrlf(a + b) <==> NoCrlf(a) && NoCrlf(b) && !Severs(a, b)
  {
    var s := a + b;
    assert forall i :: 0 <= i < |a| - 1 ==> (CrlfAt(a, i) <==> CrlfAt(s, i));
    assert forall i :: 0 <= i < |b| ==> (CrlfAt(b, i) <==> CrlfAt(s, |a| + i));
    assert forall i :: |a| <= i < |s| ==> (CrlfAt(s, i) <==> CrlfAt(b, i - |a|));
    assert a != "" ==> (CrlfAt(s, |a| - 1) <==> Severs(a, b));
  }

  /** `strcrlf` sees every line end of `s`: the runs of carriage returns before the line feeds are odd. */
  predicate AllSeen(s: string) {
    forall i :: 0 <= i < |s| && CrlfAt(s, i) ==> Seen(s, i)
  }

  lemma SingleSeen(s: string)
    requires NoDoubleCr(s)
    ensures AllSeen(s)
  {
    CrlfIsFirst(s);
  }

  /** A run of carriage returns does not reach beyond a line end. */
  lemma {:induction false} RunBehind(s: string, k: nat, i: nat)
    requires CrlfAt(s, k) && k + 2 <= i <= |s|
    ensures CrRun(s[k + 2..], i - k - 2) == CrRun(s, i)
    decreases i
  {
    if i > k + 2 {
      RunBehind(s, k, i - 1);
      assert s[k + 2..][i - k - 3] == s[i - 1];
    }
  }

  lemma SeenBehind(s: string, k: nat)
    requires Seen(s, k) && forall i :: 0 <= i < k ==> !Seen(s, i)
    ensures AllSeen(s) <==> NoCrlf(s[..k]) && AllSeen(s[k + 2..])
  {
    var t := s[k + 2..];
    forall i | 0 <= i < |t|
      ensures CrlfAt(t, i) <==> CrlfAt(s, k + 2 + i)
      ensures Seen(t, i) <==> Seen(s, k + 2 + i)
    {
      RunBehind(s, k, k + 2 + i);
      RunBehind(s, k, k + 3 + i);
    }
    assert forall i :: 0 <= i < k ==> (CrlfAt(s[..k], i) <==> CrlfAt(s, i));
    assert forall i :: k + 2 <= i < |s| ==> (CrlfAt(s, i) <==> CrlfAt(t, i - k - 2)) && (Seen(s, i) <==> Seen(t, i - k - 2));
  }

  /** Cutting leaves no line end behind exactly if all are seen. */
  lemma {:induction false} CutClean(s: string)
    ensures AllClean(Cut(s)) <==> AllSeen(s)
  {
    match Crlf(s) {
      case None =>
        assert forall i :: CrlfAt(s, i) ==> 0 <= i < |s|;
      case Some(k) =>
        SeenBehind(s, k);
        CutClean(s[k + 2..]);
        CleanOne(s[..k]);
        CleanPlus([s[..k]], Cut(s[k + 2..]).0, Cut(s[k + 2..]).1);
    }
  }

  lemma CleanOne(line: string)
    ensures AllClean(([line], "")) <==> NoCrlf(line)
  {
    assert [line][0] == line;
  }

  lemma CleanPlus(a: seq<string>, b: seq<string>, rest: string)
    ensures AllClean((a + b, rest)) <==> AllClean((a, "")) && AllClean((b, rest))
  {
    var all := a + b;
    assert forall i :: 0 <= i < |a| ==> all[i] == a[i];
    assert forall i :: 0 <= i < |b| ==> all[|a| + i] == b[i];
  }

  /** The remainder ends as the chunk does. */
  lemma {:induction false} CutEnd(s: string)
    requires s != ""
    ensures var rest := Cut(s).1;
      |rest| <= |s| && if rest == "" then s[|s| - 1] == '\n' else rest[|rest| - 1] == s[|s| - 1]
  {
    match Crlf(s) {
      case None =>
      case Some(k) =>
        if |s| > k + 2 {
          CutEnd(s[k + 2..]);
        }
    }
  }

  lemma FeedClean(tail: string, chunk: string)
    requires NoCrlf(tail)
    ensures AllClean(Feed(tail, chunk)) <==> !Severs(tail, chunk) && AllSeen(chunk)
  {
    CutClean(chunk);
    var (lines, rest) := Cut(chunk);
    if lines == [] {
      NoCrlfConcat(tail, rest);
    } else {
      NoCrlfConcat(tail, lines[0]);
      FirstLine(chunk);
      CleanOne(tail + lines[0]);
      CleanOne(lines[0]);
      CleanPlus([tail + lines[0]], lines[1..], rest);
      assert [lines[0]] + lines[1..] == lines;
      CleanPlus([lines[0]], lines[1..], rest);
    }
  }

  /** A chunk begins as its first line does, or with a line end. */
  lemma FirstLine(chunk: string)
    requires Cut(chunk).0 != []
    ensures chunk != "" && if Cut(chunk).0[0] == "" then chunk[0] == '\r' else chunk[0] == Cut(chunk).0[0][0]
  {
  }

  lemma FeedEnd(tail: string, chunk: string, next: string)
    requires chunk != ""
    ensures Severs(Feed(tail, chunk).1, next) <==> Severs(chunk, next)
  {
    CutEnd(chunk);
  }

  /** A line end that was missed stays inside a command. */
  lemma {:induction false} Missed(tail: string, chunks: seq<string>)
    requires !NoCrlf(tail)
    ensures !AllClean(FeedAll(tail, chunks))
    decreases |chunks|
  {
    if chunks != [] {
      var (lines, rest) := Cut(chunks[0]);
      if lines == [] {
        NoCrlfConcat(tail, rest);
        Missed(tail + rest, chunks[1..]);
        assert FeedAll(tail, chunks).0 == FeedAll(tail + rest, chunks[1..]).0;
      } else {
        NoCrlfConcat(tail, lines[0]);
        assert FeedAll(tail, chunks).0[0] == tail + lines[0];
      }
    }
  }

  predicate Harmless(before: string, chunks: seq<string>)
    decreases |chunks|
  {
    chunks != [] ==> !Severs(before, chunks[0]) && Harmless(chunks[0], chunks[1..])
  }

  lemma {:induction false} FeedAllClean(before: string, tail: string, chunks: seq<string>)
    requires NoCrlf(tail) && forall i :: 0 <= i < |chunks| ==> chunks[i] != ""
    requires chunks != [] ==> (Severs(before, chunks[0]) <==> Severs(tail, chunks[0]))
    ensures AllClean(FeedAll(tail, chunks)) <==> Harmless(before, chunks) && forall i :: 0 <= i < |chunks| ==> AllSeen(chunks[i])
    decreases |chunks|
  {
    if chunks != [] {
      var (first, rest) := Feed(tail, chunks[0]);
      var (more, last) := FeedAll(rest, chunks[1..]);
      FeedClean(tail, chunks[0]);
      if |chunks| > 1 {
        FeedEnd(tail, chunks[0], chunks[1]);
      }
      CleanPlus(first, more, last);
      assert forall i :: 0 < i < |chunks| ==> chunks[i] == chunks[1..][i - 1];
      if NoCrlf(rest) {
        FeedAllClean(chunks[0], rest, chunks[1..]);
      } else {
        Missed(rest, chunks[1..]);
      }
    }
  }

  lemma {:induction false} HarmlessMeans(before: string, chunks: seq<string>)
    ensures Harmless(before, chunks) <==>
      (chunks != [] ==> !Severs(before, chunks[0])) && forall i :: 0 <= i < |chunks| - 1 ==> !Severs(chunks[i], chunks[i + 1])
    decreases |chunks|
  {
    if chunks != [] {
      var r := chunks[1..];
      HarmlessMeans(chunks[0], r);
      assert forall i :: 0 <= i < |r| ==> r[i] == chunks[i + 1];
      assert forall i :: 1 <= i < |chunks| - 1 ==> (Severs(chunks[i], chunks[i + 1]) <==> Severs(r[i - 1], r[i]));
    }
  }

  lemma {:induction false} ChunksSingle(chunks: seq<string>)
    requires NoDoubleCr(Concat(chunks))
    ensures forall i :: 0 <= i < |chunks| ==> NoDoubleCr(chunks[i])
  {
    if chunks != [] {
      ConcatSplit(chunks);
      var a, b := chunks[0], Concat(chunks[1..]);
      assert forall i :: 0 <= i < |a| ==> a[i] == (a + b)[i];
      assert forall i :: 0 <= i < |b| ==> b[i] == (a + b)[|a| + i];
      ChunksSingle(chunks[1..]);
      assert forall i :: 0 < i < |chunks| ==> chunks[i] == chunks[1..][i - 1];
    }
  }

  /** A division into chunks at which no line end gets lost. */
  predicate LossFree(chunks: seq<string>) {
    && (forall i :: 0 <= i < |chunks| - 1 ==> !Severs(chunks[i], chunks[i + 1]))
    && (forall i :: 0 <= i < |chunks| ==> AllSeen(chunks[i]))
  }

  /**
   * The commands and the remainder are the split of the whole stream at its line ends exactly if no
   * chunk boundary severs a CR from its LF and, counted inside its chunk, every line end has an odd
   * run of carriage returns.
   */
  lemma Chunking(chunks: seq<string>)
    requires forall i :: 0 <= i < |chunks| ==> chunks[i] != ""
    ensures var (commands, rest) := FeedAll("", chunks); IsSplit(Concat(chunks), commands, rest) <==> LossFree(chunks)
  {
    hide FeedAll, Glue, Concat, AllSeen, NoCrlf;
    FeedAllGlue("", chunks);
    assert "" + Concat(chunks) == Concat(chunks);
    FeedAllClean("", "", chunks);
    HarmlessMeans("", chunks);
  }

  /** In a stream without doubled carriage returns only the severed line ends count. */
  lemma SingleLossFree(chunks: seq<string>)
    requires NoDoubleCr(Concat(chunks))
    ensures LossFree(chunks) <==> forall i :: 0 <= i < |chunks| - 1 ==> !Severs(chunks[i], chunks[i + 1])
  {
    ChunksSingle(chunks);
    forall i | 0 <= i < |chunks|
      ensures AllSeen(chunks[i])
    {
      SingleSeen(chunks[i]);
    }
  }

  lemma FirstCrlf(line: string, more: string)
    requires NoCrlf(line)
    ensures First(line + "\r\n" + more, CrlfAt, Some(|line|))
  {
    var s := line + "\r\n" + more;
    assert forall i :: 0 <= i < |line| ==> s[i] == line[i];
    assert forall i :: 0 <= i < |line| - 1 ==> (CrlfAt(s, i) <==> CrlfAt(line, i));
  }

  /** A stream has only one split. */
  lemma {:induction false} SplitUnique(s: string, a: seq<string>, x: string, b: seq<string>, y: string)
    requires IsSplit(s, a, x) && IsSplit(s, b, y)
    ensures a == b && x == y
    decreases |a|
  {
    if a == [] || b == [] {
      assert a == [] ==> s == x;
      assert b == [] ==> s == y;
      if a != [] {
        SplitNone(s, a, x);
      }
      if b != [] {
        SplitNone(s, b, y);
      }
    } else {
      SplitHead(s, a, x);
      SplitHead(s, b, y);
      FirstUnique(s, CrlfAt, Some(|a[0]|), Some(|b[0]|));
      SplitUnique(s[|a[0]| + 2..], a[1..], x, b[1..], y);
      assert a == [a[0]] + a[1..] && b == [b[0]] + b[1..];
    }
  }

  lemma SplitHead(s: string, a: seq<string>, x: string)
    requires IsSplit(s, a, x) && a != []
    ensures First(s, CrlfAt, Some(|a[0]|)) && s[..|a[0]|] == a[0] && IsSplit(s[|a[0]| + 2..], a[1..], x)
  {
    var more := Glue(a[1..]) + x;
    assert s == a[0] + "\r\n" + more;
    FirstCrlf(a[0], more);
    assert s[|a[0]| + 2..] == more;
  }

  lemma SplitNone(s: string, a: seq<string>, x: string)
    requires IsSplit(s, a, x) && a != []
    ensures !NoCrlf(s)
  {
    SplitHead(s, a, x);
  }

  /** So two such divisions of the same stream yield the same commands and the same remainder. */
  lemma ChunkingIndependent(p: seq<string>, q: seq<string>)
    requires Concat(p) == Concat(q) && LossFree(p) && LossFree(q)
    requires forall i :: 0 <= i < |p| ==> p[i] != ""
    requires forall i :: 0 <= i < |q| ==> q[i] != ""
    ensures FeedAll("", p) == FeedAll("", q)
  {
    Chunking(p);
    Chunking(q);
    SplitUnique(Concat(p), FeedAll("", p).0, FeedAll("", p).1, FeedAll("", q).0, FeedAll("", q).1);
  }
}
