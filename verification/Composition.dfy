/**
 * One client connection and one server session over two FIFO byte channels.
 *
 * The steps are those of the two programs: `send` takes any part of the queue, the server reads any
 * chunk that does not sever a CR from its LF, and the client is handed whole replies.
 */
module Composition {
  import opened Wrappers
  import opened Strings
  import opened StringUtils
  import opened SmtpCommands
  import opened Framing
  import opened Server
  import opened Replies
  import opened Dialogue
  import SmtpRuns
  import C = ClientFsm

  const READ_MAX := 1024

  datatype Joint = Joint(
    client: C.Client,       // state, and everything put into the send queue
    pending: string,        // the part of it still in the queue
    c2s: string,            // sent and not yet read by the server
    s2c: string,            // replied and not yet read by the client
    unread: string,         // read by the client and not yet handled
    view: View,             // the session
    tail: string,           // its unfinished command
    saved: seq<Envelope>,   // the envelopes completed so far
    closed: bool,           // the server has closed the connection
    exited: bool)           // the client has called exit()

  /** Accepted: the server has greeted, the client has not said anything. */
  function Init(): Joint {
    Joint(C.Client(C.INIT, ""), "", "", "220\r\n", "", Reset(Initial), "", [], false, false)
  }

  /** The socket is in the write set, and `send` takes `n` bytes. */
  predicate Writes(j: Joint, j': Joint, n: nat) {
    && C.Running(j.client.state) && 0 < n <= |j.pending|
    && j' == j.(pending := j.pending[n..], c2s := j.c2s + j.pending[..n])
  }

  /** The server reads `n` bytes, carries out the commands in them and answers each. */
  ghost predicate Serves(j: Joint, j': Joint, n: nat) {
    && !j.closed && 0 < n <= |j.c2s| && n <= READ_MAX
    && !Severs(j.c2s[..n], j.c2s[n..] + j.pending)
    && var job := JobOf(j.view, j.tail, j.c2s[..n]);
       QuitIsLast(job.start, job.ins, job.rest) && Served1(j, j', n, job.ins, job.rest)
  }

  ghost predicate Served1(j: Joint, j': Joint, n: nat, ins: seq<Input>, rest: string)
    requires n <= |j.c2s|
  {
    var r := Serve(j.view, "", ins);
    && j' == j.(c2s := j.c2s[n..], view := r.view, tail := rest, s2c := j.s2c + Concat(r.sent), saved := j.saved + r.saved, closed := j'.closed)
    && (j'.closed <==> exists i :: 0 <= i < |ins| && Closes(j.view, ins, i))
  }

  /** The client does what an event demands. */
  predicate Reacts(m: C.Letter, j: Joint, j': Joint, e: Option<C.Event>) {
    var c := if e.Some? then C.Advance(C.ScriptOf(m), j.client, e.value) else Some(j.client);
    match c
    case None => j' == j.(exited := true)
    case Some(d) => |j.client.queued| <= |d.queued| && j' == j.(client := d, pending := j.pending + d.queued[|j.client.queued|..])
  }

  /** `recv` hands the client `n` bytes, which with those from before are whole replies; it handles one. */
  predicate Hears(m: C.Letter, j: Joint, j': Joint, n: nat) {
    && 0 < n <= |j.s2c| && Readable(j.unread + j.s2c[..n])
    && var buf := j.unread + j.s2c[..n];
       var (taken, e) := Take(buf);
       |taken| <= |buf| && Reacts(m, j.(s2c := j.s2c[n..], unread := buf[|taken|..]), j', e)
  }

  /** The client finds the connection closed. */
  predicate Misses(m: C.Letter, j: Joint, j': Joint) {
    j.closed && j.s2c == "" && Reacts(m, j, j', Some(C.CONNECTION_LOST))
  }

  ghost predicate Next(m: C.Letter, j: Joint, j': Joint) {
    && !j.exited
    && ((exists n :: Writes(j, j', n)) || (exists n :: Serves(j, j', n)) || (exists n :: Hears(m, j, j', n)) || Misses(m, j, j'))
  }

  // ---------- the invariant ----------

  function StateAt(k: nat): C.State {
    if k == 0 then C.INIT else if k == 1 then C.INITIALIZED else if k == 2 then C.S_EHLO else if k == 3 then C.S_MF
    else if k == 4 then C.S_RT else if k == 5 then C.S_DATA else C.S_QUIT
  }

  function Said(m: C.Letter, k: nat): string
    requires k <= 6
  {
    Concat(C.ScriptOf(m).pieces[..k])
  }

  function SavedAt(m: C.Letter, k: nat): seq<Envelope> {
    if k >= 5 then [Expected(m)] else []
  }

  /** Piece `k - 1` is on its way: the server has read `a` of it, which makes `n` lines, and `b` is to come. */
  predicate Speaking(m: C.Letter, j: Joint, k: nat, a: string, b: string, n: nat)
    requires 1 <= k <= 6
  {
    && n < |Group(m, k - 1)| && C.ScriptOf(m).pieces[k - 1] == a + b && b != "" && b == j.c2s + j.pending
    && IsSplit(a, Group(m, k - 1)[..n], j.tail) && !Severs(a, b)
    && j.client == C.Client(StateAt(k), Said(m, k)) && j.view == At(m, k - 1, n)
    && j.s2c == "" && j.unread == "" && j.saved == SavedAt(m, k - 1) && !j.closed && !j.exited
  }

  function ReplyAt(k: nat): string {
    if k == 0 then "220\r\n" else Answer(k - 1)
  }

  /** The first `k` pieces have been served and the last reply is on its way. */
  predicate Answered(m: C.Letter, j: Joint, k: nat)
    requires k <= 6
  {
    && j.pending == "" && j.c2s == "" && j.tail == "" && j.unread == "" && j.s2c == ReplyAt(k)
    && j.client == C.Client(StateAt(k), Said(m, k)) && j.view == At(m, k, 0)
    && j.saved == SavedAt(m, k) && j.closed == (k == 6) && !j.exited
  }

  predicate Finished(m: C.Letter, j: Joint) {
    j == Joint(C.Client(C.FINISH, Said(m, 6)), "", "", "", "", Reset(Initial), "", [Expected(m)], true, false)
  }

  ghost predicate Inv(m: C.Letter, j: Joint) {
    || (exists k, a, b, n :: 1 <= k <= 6 && Speaking(m, j, k, a, b, n))
    || (exists k :: 0 <= k <= 6 && Answered(m, j, k))
    || Finished(m, j)
  }

  lemma InitInv(m: C.Letter)
    ensures Inv(m, Init())
  {
    assert C.ScriptOf(m).pieces[..0] == [];
    assert Answered(m, Init(), 0);
  }

  // ---------- each step keeps it ----------

  lemma WritesSpeaking(m: C.Letter, j: Joint, j': Joint, w: nat, k: nat, a: string, b: string, n: nat)
    requires 1 <= k <= 6 && Speaking(m, j, k, a, b, n) && Writes(j, j', w)
    ensures Speaking(m, j', k, a, b, n)
  {
    assert j.pending == j.pending[..w] + j.pending[w..];
    assert j.c2s + (j.pending[..w] + j.pending[w..]) == (j.c2s + j.pending[..w]) + j.pending[w..];
  }

  /** Replies are single lines that mean OK. */
  lemma ReplyTaken(k: nat)
    requires k <= 6
    ensures IsLine(ReplyAt(k)) && Take(ReplyAt(k)) == (ReplyAt(k), Some(C.OK)) && Readable(ReplyAt(k))
  {
    var r := ReplyAt(k);
    assert forall i :: 0 <= i < |r| - 2 ==> !CrlfAt(r, i);
    FirstUnique(r, CrlfAt, FindEos(r, 0), Some(|r| - 2));
    assert r[..|r|] == r;
    assert Line(r) == Some(r);
    CodeClass(r);
  }

  /** Less than a whole reply cannot be read. */
  lemma ReplyWhole(r: string, n: nat)
    requires IsLine(r) && 0 < n <= |r| && Readable(r[..n])
    ensures n == |r|
  {
    assert forall i :: CrlfAt(r[..n], i) ==> CrlfAt(r, i);
    assert Line(r[..n]).Some?;
  }

  /** What serving the lines `n` to `e` of a group leads to. */
  ghost predicate ServedUpTo(m: C.Letter, j: Joint, k: nat, a: string, b: string, e: nat)
    requires 1 <= k <= 6
  {
    if b == "" then Answered(m, j, k) else Speaking(m, j, k, a, b, e)
  }

  lemma ServesSpeaking(m: C.Letter, j: Joint, j': Joint, w: nat, k: nat, a: string, b: string, n: nat) returns (e: nat)
    requires Framable(m) && (k == 5 ==> Dotless(m)) && 1 <= k <= 6 && Speaking(m, j, k, a, b, n) && Serves(j, j', w)
    ensures ServedUpTo(m, j', k, a + j.c2s[..w], j.c2s[w..] + j.pending, e)
  {
    hide Framable, Dotless, Feed, ServedUpTo, Plays, Serve;
    var chunk, b' := j.c2s[..w], j.c2s[w..] + j.pending;
    ChunkOf(j.c2s, j.pending, w);
    e := FeedsPiece(m, k, a, chunk, b', n, j.tail);
    GroupPlays(m, k - 1, e);
    ServedLines(m, j, j', w, k, a + chunk, b', n, e);
  }

  lemma FeedsPiece(m: C.Letter, k: nat, a: string, chunk: string, b: string, n: nat, tail: string) returns (e: nat)
    requires Framable(m) && 1 <= k <= 6 && n < |Group(m, k - 1)| && chunk != ""
    requires C.ScriptOf(m).pieces[k - 1] == a + (chunk + b) && IsSplit(a, Group(m, k - 1)[..n], tail)
    requires !Severs(a, chunk + b) && !Severs(chunk, b)
    ensures C.ScriptOf(m).pieces[k - 1] == a + chunk + b && !Severs(a + chunk, b)
    ensures var (cs, rest) := Feed(tail, chunk); var g := Group(m, k - 1);
      && n <= e <= |g| && Inputs(cs) == Inputs(g)[n..e] && IsSplit(a + chunk, g[..e], rest)
      && if b == "" then e == |g| && rest == "" else e < |g|
  {
    PieceFramed(m, k - 1);
    e := FeedsLines(C.ScriptOf(m).pieces[k - 1], Group(m, k - 1), a, chunk, b, n, tail);
  }

  lemma FeedsLines(piece: string, lines: seq<string>, a: string, chunk: string, b: string, n: nat, tail: string) returns (e: nat)
    requires Framed(piece, lines) && n < |lines| && chunk != ""
    requires piece == a + (chunk + b) && IsSplit(a, lines[..n], tail)
    requires !Severs(a, chunk + b) && !Severs(chunk, b)
    ensures piece == a + chunk + b && !Severs(a + chunk, b)
    ensures var (cs, rest) := Feed(tail, chunk);
      && n <= e <= |lines| && Inputs(cs) == Inputs(lines)[n..e] && IsSplit(a + chunk, lines[..e], rest)
      && if b == "" then e == |lines| && rest == "" else e < |lines|
  {
    assert piece == a + chunk + b;
    e := FeedWithin(piece, lines, a, chunk, b, n, tail);
    InputsSlice(lines, n, e);
  }

  lemma ChunkOf(x: string, y: string, w: nat)
    requires w <= |x|
    ensures (x + y)[..w] == x[..w] && (x + y)[w..] == x[w..] + y && x + y == x[..w] + (x[w..] + y)
  {
  }

  lemma InputsSlice(g: seq<string>, n: nat, e: nat)
    requires n <= e <= |g|
    ensures Inputs(g[n..e]) == Inputs(g)[n..e]
  {
    hide Inputs;
    Parts(g, n, e);
    InputsAppend(g[..n], g[n..e]);
    InputsAppend(g[..e], g[e..]);
    MiddlePart(Inputs(g[..n]), Inputs(g[n..e]), Inputs(g[e..]));
  }

  lemma ServedLines(m: C.Letter, j: Joint, j': Joint, w: nat, k: nat, a: string, b: string, n: nat, e: nat)
    requires 1 <= k <= 6 && n < |Group(m, k - 1)| && n <= e <= |Group(m, k - 1)| && Plays(m, k - 1, Inputs(Group(m, k - 1)), e)
    requires j.client == C.Client(StateAt(k), Said(m, k)) && j.view == At(m, k - 1, n)
    requires j.s2c == "" && j.unread == "" && j.saved == SavedAt(m, k - 1) && !j.closed && !j.exited
    requires w <= |j.c2s| && C.ScriptOf(m).pieces[k - 1] == a + b && b == j.c2s[w..] + j.pending && !Severs(a, b)
    requires Served1(j, j', w, Inputs(Group(m, k - 1))[n..e], j'.tail)
    requires IsSplit(a, Group(m, k - 1)[..e], j'.tail)
    requires if b == "" then e == |Group(m, k - 1)| && j'.tail == "" else e < |Group(m, k - 1)|
    ensures ServedUpTo(m, j', k, a, b, e)
  {
    var ins := Inputs(Group(m, k - 1));
    GroupServe(m, k - 1, ins, n, e);
    GroupClosesIff(m, k - 1, ins, n, e);
    ServedGroup(m, j, j', w, k, a, b, n, e, Serve(j.view, "", ins[n..e]));
  }

  lemma ServedGroup(m: C.Letter, j: Joint, j': Joint, w: nat, k: nat, a: string, b: string, n: nat, e: nat, r: Served)
    requires 1 <= k <= 6 && n < |Group(m, k - 1)| && n <= e <= |Group(m, k - 1)| && GroupServed(m, k - 1, n, e, r)
    requires j.client == C.Client(StateAt(k), Said(m, k))
    requires j.s2c == "" && j.unread == "" && j.saved == SavedAt(m, k - 1) && !j.closed && !j.exited
    requires w <= |j.c2s| && C.ScriptOf(m).pieces[k - 1] == a + b && b == j.c2s[w..] + j.pending && !Severs(a, b)
    requires j' == j.(c2s := j.c2s[w..], view := r.view, tail := j'.tail, s2c := j.s2c + Concat(r.sent), saved := j.saved + r.saved,
                      closed := k == 6 && n < e)
    requires IsSplit(a, Group(m, k - 1)[..e], j'.tail)
    requires if b == "" then e == |Group(m, k - 1)| && j'.tail == "" else e < |Group(m, k - 1)|
    ensures ServedUpTo(m, j', k, a, b, e)
  {
    assert "" + Concat(r.sent) == Concat(r.sent);
  }

  /** The next OK makes the client say the next piece, and the last one finishes it. */
  lemma HearsAnswered(m: C.Letter, j: Joint, j': Joint, w: nat, k: nat)
    requires Framable(m) && k <= 6 && Answered(m, j, k) && Hears(m, j, j', w)
    ensures if k == 6 then Finished(m, j') else Speaking(m, j', k + 1, "", C.ScriptOf(m).pieces[k], 0)
  {
    hide Take, Readable, C.Advance, C.ScriptOf, Framable, ReplyAt, Group, Concat;
    ReplyTaken(k);
    assert "" + j.s2c[..w] == j.s2c[..w];
    ReplyWhole(ReplyAt(k), w);
    assert j.s2c[..w] == j.s2c;
    OkSays(m, k);
    if k < 6 {
      NextPiece(m, k);
    }
  }

  /** The machine on OK, along the dialogue. */
  lemma OkSays(m: C.Letter, k: nat)
    requires Framable(m) && k <= 6
    ensures C.Advance(C.ScriptOf(m), C.Client(StateAt(k), Said(m, k)), C.OK) ==
      Some(if k == 6 then C.Client(C.FINISH, Said(m, 6)) else C.Client(StateAt(k + 1), Said(m, k + 1)))
  {
    hide NoDoubleCr;
    if k < 6 {
      ConcatOne(C.ScriptOf(m).pieces, k);
    }
  }

  lemma NextPiece(m: C.Letter, k: nat)
    requires Framable(m) && k < 6
    ensures var p := C.ScriptOf(m).pieces[k];
      && p != "" && Said(m, k + 1) == Said(m, k) + p && "" + p == p
      && IsSplit("", Group(m, k)[..0], "") && At(m, k, 0) == At(m, k, 0)
  {
    ConcatOne(C.ScriptOf(m).pieces, k);
  }

  /** A finished client stays as it is. */
  lemma MissesFinished(m: C.Letter, j: Joint, j': Joint)
    requires Finished(m, j) && Misses(m, j, j')
    ensures j' == j
  {
    assert j.client.queued[|j.client.queued|..] == "";
    assert j.pending + "" == j.pending;
  }

  /** Every step keeps the invariant; unless it is finished, it uses up energy. */
  lemma NextInv(m: C.Letter, j: Joint, j': Joint)
    requires Sendable(m) && Inv(m, j) && Next(m, j, j')
    ensures Inv(m, j')
    ensures if Finished(m, j) then j' == j else Energy(m, j') < Energy(m, j)
  {
    if k, a, b, n :| 1 <= k <= 6 && Speaking(m, j, k, a, b, n) {
      SpeakingNext(m, j, j', k, a, b, n);
    } else if k :| 0 <= k <= 6 && Answered(m, j, k) {
      AnsweredNext(m, j, j', k);
    } else {
      MissesFinished(m, j, j');
    }
  }

  lemma WritesNext(m: C.Letter, j: Joint, j': Joint, w: nat, k: nat, a: string, b: string, n: nat)
    requires 1 <= k <= 6 && Speaking(m, j, k, a, b, n) && Writes(j, j', w)
    ensures Inv(m, j') && Energy(m, j') < Energy(m, j)
  {
    WritesSpeaking(m, j, j', w, k, a, b, n);
  }

  lemma ServedInv(m: C.Letter, j: Joint, k: nat, a: string, b: string, n: nat)
    requires 1 <= k <= 6 && ServedUpTo(m, j, k, a, b, n)
    ensures Inv(m, j)
  {
    hide Speaking, Answered;
  }

  lemma ServesNext(m: C.Letter, j: Joint, j': Joint, w: nat, k: nat, a: string, b: string, n: nat)
    requires Sendable(m) && 1 <= k <= 6 && Speaking(m, j, k, a, b, n) && Serves(j, j', w)
    ensures Inv(m, j') && Energy(m, j') < Energy(m, j)
  {
    hide Framable, Dotless, Speaking, Answered, ServedUpTo, Inv, Serve, Feed;
    var e := ServesSpeaking(m, j, j', w, k, a, b, n);
    ServedInv(m, j', k, a + j.c2s[..w], j.c2s[w..] + j.pending, e);
    assert j'.client == j.client && j'.pending == j.pending && |j'.c2s| < |j.c2s|;
  }

  lemma SpeakingNext(m: C.Letter, j: Joint, j': Joint, k: nat, a: string, b: string, n: nat)
    requires Sendable(m) && 1 <= k <= 6 && Speaking(m, j, k, a, b, n) && Next(m, j, j')
    ensures Inv(m, j') && Energy(m, j') < Energy(m, j)
  {
    var w :| Writes(j, j', w) || Serves(j, j', w);
    if Writes(j, j', w) {
      WritesNext(m, j, j', w, k, a, b, n);
    } else {
      ServesNext(m, j, j', w, k, a, b, n);
    }
  }

  lemma HearsNext(m: C.Letter, j: Joint, j': Joint, w: nat, k: nat)
    requires Framable(m) && k <= 6 && Answered(m, j, k) && Hears(m, j, j', w)
    ensures Inv(m, j') && Energy(m, j') < Energy(m, j)
  {
    HearsAnswered(m, j, j', w, k);
    if k < 6 {
      NextPiece(m, k);
    }
  }

  lemma AnsweredNext(m: C.Letter, j: Joint, j': Joint, k: nat)
    requires Framable(m) && k <= 6 && Answered(m, j, k) && Next(m, j, j')
    ensures Inv(m, j') && Energy(m, j') < Energy(m, j)
  {
    ReplyTaken(k);
    var w :| Hears(m, j, j', w);
    HearsNext(m, j, j', w, k);
  }

  lemma {:induction false} SaidGrows(m: C.Letter, k: nat)
    requires k <= 6
    ensures |Said(m, k)| <= |Said(m, 6)|
    decreases 6 - k
  {
    if k < 6 {
      ConcatOne(C.ScriptOf(m).pieces, k);
      SaidGrows(m, k + 1);
    }
  }

  /** A bound for the steps still to come: three for a byte not yet said, two for one in the queue, one for one in flight. */
  function Energy(m: C.Letter, j: Joint): int {
    3 * (|Said(m, 6)| - |j.client.queued|) + 2 * |j.pending| + |j.c2s| + if C.Running(j.client.state) then 1 else 0
  }

  lemma EnergyNat(m: C.Letter, j: Joint)
    requires Inv(m, j)
    ensures Energy(m, j) >= 0
  {
    if k, a, b, n :| 1 <= k <= 6 && Speaking(m, j, k, a, b, n) {
      SaidGrows(m, k);
    } else if k :| 0 <= k <= 6 && Answered(m, j, k) {
      SaidGrows(m, k);
    }
  }

  // ---------- progress ----------

  /** How much of the bytes in flight the server can read without severing a line end. */
  lemma Readables(x: string, y: string) returns (w: nat)
    requires x != "" && (y == "" ==> x[|x| - 1] != '\r')
    ensures w > 0 ==> w <= |x| && w <= READ_MAX && !Severs(x[..w], x[w..] + y)
    ensures w == 0 ==> y != ""
  {
    w := if |x| < READ_MAX then |x| else READ_MAX;
    if Severs(x[..w], x[w..] + y) {
      w := w - 1;
    }
  }

  /** A piece ends with a line feed. */
  lemma PieceEnds(m: C.Letter, k: nat, a: string, b: string)
    requires Framable(m) && k < 6 && C.ScriptOf(m).pieces[k] == a + b && b != ""
    ensures b[|b| - 1] == '\n'
  {
    PieceFramed(m, k);
    GlueEnd(Group(m, k));
    var p := C.ScriptOf(m).pieces[k];
    assert p == Glue(Group(m, k)) + "";
    assert p[|p| - 1] == b[|b| - 1];
  }

  lemma QuitAlone(m: C.Letter, k: nat, ins: seq<Input>, rest: string, n: nat, e: nat)
    requires Sendable(m) && 1 <= k <= 6 && n < |Group(m, k - 1)| && n <= e <= |Group(m, k - 1)| && ins == Inputs(Group(m, k - 1))[n..e]
    requires e == |Group(m, k - 1)| ==> rest == ""
    ensures QuitIsLast(At(m, k - 1, n), ins, rest)
  {
    if k == 6 {
      assert |Group(m, 5)| == 1;
      OneCloses(At(m, k - 1, n), ins, rest);
    } else {
      GroupPlays(m, k - 1, e);
      GroupClosesIff(m, k - 1, Inputs(Group(m, k - 1)), n, e);
      NoneCloses(At(m, k - 1, n), ins, rest);
    }
  }

  lemma NoneCloses(v: View, ins: seq<Input>, rest: string)
    requires !exists x :: 0 <= x < |ins| && Closes(v, ins, x)
    ensures QuitIsLast(v, ins, rest)
  {
  }

  lemma OneCloses(v: View, ins: seq<Input>, rest: string)
    requires |ins| <= 1 && (ins != [] ==> rest == "")
    ensures QuitIsLast(v, ins, rest)
  {
  }

  lemma CanServe(m: C.Letter, j: Joint, w: nat, k: nat, a: string, b: string, n: nat) returns (j': Joint)
    requires Sendable(m) && 1 <= k <= 6 && Speaking(m, j, k, a, b, n)
    requires 0 < w <= |j.c2s| && w <= READ_MAX && !Severs(j.c2s[..w], j.c2s[w..] + j.pending)
    ensures Serves(j, j', w)
  {
    var chunk, b' := j.c2s[..w], j.c2s[w..] + j.pending;
    ChunkOf(j.c2s, j.pending, w);
    var e := FeedsPiece(m, k, a, chunk, b', n, j.tail);
    var job := JobOf(j.view, j.tail, chunk);
    QuitAlone(m, k, job.ins, job.rest, n, e);
    j' := ServeNow(j, w, job.ins, job.rest);
  }

  lemma ServeNow(j: Joint, w: nat, ins: seq<Input>, rest: string) returns (j': Joint)
    requires w <= |j.c2s|
    ensures Served1(j, j', w, ins, rest)
  {
    var r := Serve(j.view, "", ins);
    var closed := exists i :: 0 <= i < |ins| && Closes(j.view, ins, i);
    j' := j.(c2s := j.c2s[w..], view := r.view, tail := rest, s2c := j.s2c + Concat(r.sent), saved := j.saved + r.saved, closed := closed);
  }

  lemma CanSpeak(m: C.Letter, j: Joint, k: nat, a: string, b: string, n: nat) returns (j': Joint)
    requires Sendable(m) && 1 <= k <= 6 && Speaking(m, j, k, a, b, n)
    ensures Next(m, j, j')
  {
    hide Framable, Dotless, Group, At, Said, IsSplit, Serve, Concat, SavedAt;
    if j.pending != "" {
      j' := j.(pending := j.pending[1..], c2s := j.c2s + j.pending[..1]);
      assert Writes(j, j', 1);
    } else {
      assert j.c2s + "" == j.c2s;
      PieceEnds(m, k - 1, a, b);
      var w := Readables(j.c2s, "");
      j' := CanServe(m, j, w, k, a, b, n);
      assert Serves(j, j', w);
    }
  }

  /** Nothing is ever stuck: short of the end some step is possible. */
  lemma Progress(m: C.Letter, j: Joint) returns (j': Joint)
    requires Sendable(m) && Inv(m, j) && !Finished(m, j)
    ensures Next(m, j, j')
  {
    hide Framable, Dotless, Speaking, Answered, Next, Finished;
    if k, a, b, n :| 1 <= k <= 6 && Speaking(m, j, k, a, b, n) {
      j' := CanSpeak(m, j, k, a, b, n);
    } else {
      var k :| 0 <= k <= 6 && Answered(m, j, k);
      j' := CanHear(m, j, k);
    }
  }

  lemma CanHear(m: C.Letter, j: Joint, k: nat) returns (j': Joint)
    requires Sendable(m) && k <= 6 && Answered(m, j, k)
    ensures Next(m, j, j')
  {
    ReplyTaken(k);
    OkSays(m, k);
    if k < 6 {
      NextPiece(m, k);
    }
    var w := |j.s2c|;
    assert j.unread + j.s2c[..w] == j.s2c;
    var d := C.Advance(C.ScriptOf(m), j.client, C.OK).value;
    j' := j.(s2c := j.s2c[w..], unread := j.s2c[w..], client := d, pending := j.pending + d.queued[|j.client.queued|..]);
    assert Hears(m, j, j', w);
  }

  // ---------- whole runs ----------

  ghost predicate Chain<T(!new)>(next: (T, T) -> bool, t: seq<T>) {
    forall i :: 0 < i < |t| ==> next(t[i - 1], t[i])
  }

  /** What a step keeps holds at the end of a chain of steps. */
  lemma {:induction false} Kept<T(!new)>(inv: T -> bool, next: (T, T) -> bool, t: seq<T>)
    requires t != [] && inv(t[0]) && Chain(next, t)
    requires forall j, j' :: inv(j) && next(j, j') ==> inv(j')
    ensures forall i :: 0 <= i < |t| ==> inv(t[i])
  {
    if |t| > 1 {
      var r := t[..|t| - 1];
      assert forall i :: 0 <= i < |r| ==> r[i] == t[i];
      Kept(inv, next, r);
      assert next(t[|r| - 1], t[|r|]) && inv(r[|r| - 1]);
      assert forall i :: 0 <= i < |r| ==> inv(r[i]) && r[i] == t[i];
    }
  }

  /** What a step uses up bounds the length of a chain. */
  lemma {:induction false} UsedUp<T(!new)>(energy: T -> int, next: (T, T) -> bool, t: seq<T>)
    requires t != [] && forall i :: 0 < i < |t| ==> energy(t[i]) < energy(t[i - 1])
    ensures energy(t[|t| - 1]) + |t| - 1 <= energy(t[0])
  {
    if |t| > 1 {
      var r := t[..|t| - 1];
      assert forall i :: 0 <= i < |r| ==> r[i] == t[i];
      UsedUp(energy, next, r);
    }
  }

  /** Any run of the two programs, in any interleaving. */
  ghost predicate IsRun(m: C.Letter, t: seq<Joint>) {
    t != [] && t[0] == Init() && Chain((j, j') => Next(m, j, j'), t)
  }

  /** So far the run has not finished. */
  ghost predicate Busy(m: C.Letter, t: seq<Joint>) {
    forall i :: 0 <= i < |t| - 1 ==> !Finished(m, t[i])
  }

  lemma RunInv(m: C.Letter, t: seq<Joint>)
    requires Sendable(m) && IsRun(m, t)
    ensures forall i :: 0 <= i < |t| ==> Inv(m, t[i])
  {
    InitInv(m);
    var inv := (j: Joint) => Inv(m, j);
    var next := (j: Joint, j': Joint) => Next(m, j, j');
    forall j, j' | inv(j) && next(j, j')
      ensures inv(j')
    {
      NextInv(m, j, j');
    }
    Kept(inv, next, t);
    assert forall i :: 0 <= i < |t| ==> inv(t[i]);
  }

  lemma RunEnergy(m: C.Letter, t: seq<Joint>)
    requires Sendable(m) && IsRun(m, t) && Busy(m, t)
    ensures Energy(m, t[|t| - 1]) + |t| - 1 <= Energy(m, Init())
  {
    RunInv(m, t);
    var energy := (j: Joint) => Energy(m, j);
    var next := (j: Joint, j': Joint) => Next(m, j, j');
    forall i | 0 < i < |t|
      ensures energy(t[i]) < energy(t[i - 1])
    {
      assert next(t[i - 1], t[i]) && !Finished(m, t[i - 1]);
      NextInv(m, t[i - 1], t[i]);
    }
    UsedUp(energy, next, t);
  }

  /** What the server has saved, how the client stands, and that nothing is left when it has finished. */
  predicate Good(m: C.Letter, j: Joint) {
    && (j.saved == [] || j.saved == [Expected(m)])
    && !j.exited && j.client.state != C.S_ERROR && j.client.state != C.INVALID
    && (j.client.state == C.FINISH ==>
          j.saved == [Expected(m)] && j.closed && j.pending == "" && j.c2s == "" && j.s2c == "" && j.unread == "")
  }

  lemma InvGood(m: C.Letter, j: Joint)
    requires Inv(m, j)
    ensures Good(m, j) && (j.client.state == C.FINISH <==> Finished(m, j))
  {
    if k, a, b, n :| 1 <= k <= 6 && Speaking(m, j, k, a, b, n) {
      SpeakingGood(m, j, k, a, b, n);
    } else if k :| 0 <= k <= 6 && Answered(m, j, k) {
      AnsweredGood(m, j, k);
    }
  }

  lemma SpeakingGood(m: C.Letter, j: Joint, k: nat, a: string, b: string, n: nat)
    requires 1 <= k <= 6 && Speaking(m, j, k, a, b, n)
    ensures Good(m, j) && j.client.state != C.FINISH && !Finished(m, j)
  {
    hide Group, At, Said, IsSplit, Severs, Expected, Concat;
  }

  lemma AnsweredGood(m: C.Letter, j: Joint, k: nat)
    requires k <= 6 && Answered(m, j, k)
    ensures Good(m, j) && j.client.state != C.FINISH && !Finished(m, j)
  {
    hide At, Said, ReplyAt, Expected, Concat;
  }

  /**
   * Outcome: in every reachable state the server has saved nothing or exactly the envelope that was sent;
   * the client has met no error; and when it has finished, the envelope is there and everything is quiet.
   */
  lemma Outcome(m: C.Letter, t: seq<Joint>)
    requires Sendable(m) && IsRun(m, t)
    ensures var j := t[|t| - 1];
      && (j.saved == [] || j.saved == [Expected(m)])
      && !j.exited && j.client.state != C.S_ERROR && j.client.state != C.INVALID
      && (j.client.state == C.FINISH ==>
            j.saved == [Expected(m)] && j.closed && j.pending == "" && j.c2s == "" && j.s2c == "" && j.unread == "")
  {
    RunInv(m, t);
    InvGood(m, t[|t| - 1]);
  }

  /** No step changes anything any more. */
  ghost predicate Settled(m: C.Letter, j: Joint) {
    forall j' :: Next(m, j, j') ==> j' == j
  }

  lemma SettledMeans(m: C.Letter, j: Joint)
    requires Sendable(m) && Inv(m, j)
    ensures Settled(m, j) <==> Finished(m, j)
  {
    if Finished(m, j) {
      forall j' | Next(m, j, j')
        ensures j' == j
      {
        NextInv(m, j, j');
      }
    } else {
      var j' := Progress(m, j);
      NextInv(m, j, j');
    }
  }

  /**
   * Termination: a run that has not finished is no longer than three times the bytes of the dialogue, and
   * it can go on; nothing changes any more exactly when the client has finished.
   */
  lemma Termination(m: C.Letter, t: seq<Joint>)
    requires Sendable(m) && IsRun(m, t)
    ensures Busy(m, t) ==> |t| - 1 <= 3 * |Said(m, 6)| + 1
    ensures Settled(m, t[|t| - 1]) <==> t[|t| - 1].client.state == C.FINISH
  {
    RunInv(m, t);
    if Busy(m, t) {
      RunEnergy(m, t);
    }
    EnergyNat(m, t[|t| - 1]);
    InvGood(m, t[|t| - 1]);
    SettledMeans(m, t[|t| - 1]);
  }

  // ---------- a dot in the text ----------

  /** Nothing is saved yet: the dialogue has got no further than the first dot. */
  ghost predicate Underway(m: C.Letter, j: Joint) {
    || (exists k: nat, a, b, n: nat :: 1 <= k <= 5 && Speaking(m, j, k, a, b, n) && (k == 5 ==> n <= Dot(m)))
    || (exists k :: 0 <= k <= 4 && Answered(m, j, k))
  }

  /** The first envelope saved, if any, is the one that the first dot completes. */
  ghost predicate FirstInv(m: C.Letter, j: Joint) {
    Underway(m, j) || (j.saved != [] && j.saved[0] == Received(m))
  }

  lemma SavedStays(m: C.Letter, j: Joint, j': Joint)
    requires Next(m, j, j') && j.saved != []
    ensures j'.saved != [] && j'.saved[0] == j.saved[0]
  {
  }

  lemma ServesWhat(j: Joint, j': Joint, w: nat)
    requires Serves(j, j', w)
    ensures var (cs, rest) := Feed(j.tail, j.c2s[..w]); var ins := Inputs(cs);
      j'.tail == rest && Served1(j, j', w, ins, j'.tail) && j'.saved == j.saved + Serve(j.view, "", ins).saved
  {
  }

  /** A chunk of the text up to which no dot comes leaves the session in the text, any other completes the envelope. */
  lemma TextServed(m: C.Letter, j: Joint, j': Joint, w: nat, a: string, b: string, n: nat)
    requires Framable(m) && Speaking(m, j, 5, a, b, n) && n <= Dot(m) && Serves(j, j', w)
    ensures FirstInv(m, j')
  {
    hide Framable, Dotless, Served1, Serve, Feed, Inputs, At, Received, Serves, Plays, Underway, FirstInv, ServedUpTo;
    ServesWhat(j, j', w);
    ServesBounds(j, j', w);
    ChunkOf(j.c2s, j.pending, w);
    var e := FeedsPiece(m, 5, a, j.c2s[..w], j.c2s[w..] + j.pending, n, j.tail);
    if e <= Dot(m) {
      NoDotServed(m, j, j', w, a + j.c2s[..w], j.c2s[w..] + j.pending, n, e);
    } else {
      DotServed(m, j.view, Inputs(Group(m, 4)), n, e);
      FirstSaved(m, j, j');
    }
  }

  lemma FirstSaved(m: C.Letter, j: Joint, j': Joint)
    requires j'.saved != [] && j'.saved[0] == Received(m)
    ensures FirstInv(m, j')
  {
  }

  lemma ServesBounds(j: Joint, j': Joint, w: nat)
    requires Serves(j, j', w)
    ensures 0 < w <= |j.c2s| && !Severs(j.c2s[..w], j.c2s[w..] + j.pending)
  {
  }

  lemma NoDotServed(m: C.Letter, j: Joint, j': Joint, w: nat, a: string, b: string, n: nat, e: nat)
    requires Framable(m) && n <= e <= Dot(m)
    requires j.client == C.Client(StateAt(5), Said(m, 5)) && j.view == At(m, 4, n)
    requires j.s2c == "" && j.unread == "" && j.saved == SavedAt(m, 4) && !j.closed && !j.exited
    requires w <= |j.c2s| && C.ScriptOf(m).pieces[4] == a + b && b == j.c2s[w..] + j.pending && !Severs(a, b) && b != ""
    requires Served1(j, j', w, Inputs(Group(m, 4))[n..e], j'.tail) && IsSplit(a, Group(m, 4)[..e], j'.tail)
    ensures FirstInv(m, j')
  {
    hide Framable, Dotless, Served1, Serve, Inputs, At, Plays, Speaking, Severs, IsSplit, TextLines;
    GroupPlays(m, 4, e);
    ServedLines(m, j, j', w, 5, a, b, n, e);
  }

  lemma DotServed(m: C.Letter, v: View, ins: seq<Input>, n: nat, e: nat)
    requires Framable(m) && n <= Dot(m) < e <= |Group(m, 4)| && v == At(m, 4, n) && ins == Inputs(Group(m, 4))
    ensures |ins| == |Group(m, 4)| && var r := Serve(v, "", ins[n..e]); r.saved != [] && r.saved[0] == Received(m)
  {
    var d := Dot(m);
    assert Group(m, 4)[d] == ".";
    InputsAt(Group(m, 4), d);
    GroupPlays(m, 4, d);
    hide Serve, Inputs, Framable, Plays, Group, TextLines, Received, At, Step;
    QuietUpTo(m, ins, n, d);
    DotStep(m, ins[d]);
    ServeSlice(v, ins, n, d, Step(At(m, 4, d), ins[d], ""));
    FirstStays(v, ins, n, d + 1, e);
  }

  lemma QuietUpTo(m: C.Letter, ins: seq<Input>, n: nat, d: nat)
    requires n <= d <= |TextLines(m.text)| && Plays(m, 4, ins, d)
    ensures var r := Serve(At(m, 4, n), "", ins[n..d]); r.view == At(m, 4, d) && r.reply == "" && r.saved == []
  {
    hide Serve, Plays, At;
    GroupServe(m, 4, ins, n, d);
  }

  lemma FirstStays(v: View, ins: seq<Input>, n: nat, d: nat, e: nat)
    requires n <= d <= e <= |ins| && Serve(v, "", ins[n..d]).saved != []
    ensures Serve(v, "", ins[n..e]).saved != [] && Serve(v, "", ins[n..e]).saved[0] == Serve(v, "", ins[n..d]).saved[0]
  {
    hide Serve;
    assert ins[n..e] == ins[n..d] + ins[d..e];
    SmtpRuns.ServeSplit(v, "", ins[n..d], ins[d..e]);
  }

  /** The line that is a dot completes the envelope. */
  lemma DotStep(m: C.Letter, c: Input)
    requires c.line == "."
    ensures Step(At(m, 4, Dot(m)), c, "").saved == Some(Received(m))
  {
  }

  lemma UnderwayNext(m: C.Letter, j: Joint, j': Joint)
    requires Framable(m) && Underway(m, j) && Next(m, j, j')
    ensures FirstInv(m, j')
  {
    hide Framable, Speaking, Answered, Next;
    if k: nat, a, b, n: nat :| 1 <= k <= 5 && Speaking(m, j, k, a, b, n) && (k == 5 ==> n <= Dot(m)) {
      SpeakingFirst(m, j, j', k, a, b, n);
    } else {
      var k :| 0 <= k <= 4 && Answered(m, j, k);
      AnsweredFirst(m, j, j', k);
    }
  }

  lemma AnsweredFirst(m: C.Letter, j: Joint, j': Joint, k: nat)
    requires Framable(m) && k <= 4 && Answered(m, j, k) && Next(m, j, j')
    ensures FirstInv(m, j')
  {
    hide Framable, At, Said, ReplyAt, Group;
    var w :| Hears(m, j, j', w);
    hide Hears, Speaking;
    HearsAnswered(m, j, j', w, k);
    assert Underway(m, j');
  }

  lemma SpeakingFirst(m: C.Letter, j: Joint, j': Joint, k: nat, a: string, b: string, n: nat)
    requires Framable(m) && 1 <= k <= 5 && Speaking(m, j, k, a, b, n) && (k == 5 ==> n <= Dot(m)) && Next(m, j, j')
    ensures FirstInv(m, j')
  {
    hide Framable, Group, At, Said, IsSplit;
    var w :| Writes(j, j', w) || Serves(j, j', w);
    hide Serves, Writes, Speaking;
    if Writes(j, j', w) {
      WritesSpeaking(m, j, j', w, k, a, b, n);
    } else if k == 5 {
      TextServed(m, j, j', w, a, b, n);
    } else {
      ShortServed(m, j, j', w, k, a, b, n);
    }
  }

  lemma ShortServed(m: C.Letter, j: Joint, j': Joint, w: nat, k: nat, a: string, b: string, n: nat)
    requires Framable(m) && 1 <= k <= 4 && Speaking(m, j, k, a, b, n) && Serves(j, j', w)
    ensures FirstInv(m, j')
  {
    hide Framable, Speaking, Answered, Serves;
    ServesBounds(j, j', w);
    var e := ServesSpeaking(m, j, j', w, k, a, b, n);
    var b' := j.c2s[w..] + j.pending;
    assert if b' == "" then Answered(m, j', k) else Speaking(m, j', k, a + j.c2s[..w], b', e);
  }

  lemma FirstNext(m: C.Letter, j: Joint, j': Joint)
    requires Framable(m) && FirstInv(m, j) && Next(m, j, j')
    ensures FirstInv(m, j')
  {
    hide Framable, Underway, Next, Received;
    if Underway(m, j) {
      UnderwayNext(m, j, j');
    } else {
      SavedStays(m, j, j');
    }
  }

  /**
   * Without the condition that no line of the text is a single dot: the first envelope saved, if any, is
   * the one that was sent exactly if that condition holds; otherwise it is cut off at the first dot.
   */
  lemma FirstEnvelope(m: C.Letter, t: seq<Joint>)
    requires Framable(m) && IsRun(m, t) && t[|t| - 1].saved != []
    ensures var first := t[|t| - 1].saved[0];
      first == Received(m) && (first == Expected(m) <==> Dotless(m))
  {
    hide Framable, Next, Received, Dotless, Speaking, Answered;
    ReceivedWhole(m);
    StartsUnderway(m);
    var inv := (j: Joint) => FirstInv(m, j);
    var next := (j: Joint, j': Joint) => Next(m, j, j');
    forall j, j' | inv(j) && next(j, j')
      ensures inv(j')
    {
      FirstNext(m, j, j');
    }
    Kept(inv, next, t);
    assert inv(t[|t| - 1]);
    UnderwaySaved(m, t[|t| - 1]);
  }

  lemma StartsUnderway(m: C.Letter)
    ensures FirstInv(m, Init())
  {
    assert C.ScriptOf(m).pieces[..0] == [];
    assert Answered(m, Init(), 0);
  }

  lemma UnderwaySaved(m: C.Letter, j: Joint)
    ensures Underway(m, j) ==> j.saved == []
  {
  }
}
