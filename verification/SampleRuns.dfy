/**
 * Runs of insertions that show where the code of common/src/tree.c goes wrong: eight rising keys leave
 * a stale parent link behind, which a ninth does not meet, and nine keys in another order spoil the
 * balance. The first seven keys rise in all of them.
 */
module SampleRuns {
  import opened CString
  import opened TreeShape
  import opened TreeMemory
  import opened TreeRotation
  import opened TreeLinks
  import opened TreeFixup
  import opened TreeProgram
  import opened TreeRefinement
  import opened TreeReads
  import opened TreeRuns
  import opened RedBlack
  import opened Dictionary
  import opened DictionaryRuns

  // ---------- seven rising keys ----------

  /** Inserting `node`, whose key is new, turns the tree `t` into `r` and moves empty subtrees only. */
  predicate Grows(t: Shape, node: TreeNode, r: Shape) {
    !IsRed(t) && Locate(t, node.key).1.Leaf? && Inserted(t, node) == r && InsertMovesEmpty(t, node)
  }

  predicate Rising(n: seq<TreeNode>) {
    forall i, j :: 0 <= i < j < |n| ==> StrCmp(n[i].key, n[j].key) < 0
  }

  function Single(node: TreeNode, color: Color): Shape {
    Fork(Leaf, node, color, Leaf)
  }

  /** A key above all others goes to the right end. */
  lemma DownRight(c: Ctx, l: Shape, m: TreeNode, k: Color, r: Shape, key: string)
    requires StrCmp(m.key, key) < 0
    ensures Down(c, Fork(l, m, k, r), key) == Down(InRight(c, l, m, k), r, key)
  {
  }

  /** Below a red parent without an uncle: one rotation. */
  lemma Rotates(up: Ctx, g: TreeNode, p: TreeNode, node: TreeNode)
    requires BlackRoot(up)
    ensures var c := InRight(InRight(up, Leaf, g, Black), Leaf, p, Red);
      && BlackRoot(c) && FixMovesEmpty(c, Single(node, Red))
      && Fix(c, Single(node, Red)) == Blacken(Plug(up, Fork(Single(g, Red), p, Black, Single(node, Red))))
  {
    var c := InRight(InRight(up, Leaf, g, Black), Leaf, p, Red);
    assert Step(c, Single(node, Red)) == (InRight(up, Single(g, Red), p, Black), Single(node, Red));
    assert Fix(Step(c, Single(node, Red)).0, Single(node, Red)) == Blacken(Plug(Step(c, Single(node, Red)).0, Single(node, Red)));
  }

  /** Below a red parent with a red uncle: recolouring, and on with the grandparent. */
  lemma Recolours(up: Ctx, u: TreeNode, g: TreeNode, p: TreeNode, node: TreeNode)
    requires BlackRoot(up)
    ensures var c := InRight(InRight(up, Single(u, Red), g, Black), Leaf, p, Red);
      && BlackRoot(c)
      && Step(c, Single(node, Red)) == (up, Fork(Single(u, Black), g, Red, Fork(Leaf, p, Black, Single(node, Red))))
      && Fix(c, Single(node, Red)) == Fix(up, Fork(Single(u, Black), g, Red, Fork(Leaf, p, Black, Single(node, Red))))
      && (FixMovesEmpty(c, Single(node, Red)) <==>
          FixMovesEmpty(up, Fork(Single(u, Black), g, Red, Fork(Leaf, p, Black, Single(node, Red)))))
  {
  }

  /** Below a black parent: nothing moves. */
  lemma Rests(c: Ctx, t: Shape)
    requires t.Fork? && BlackRoot(c) && !Unbalanced(c)
    ensures Fix(c, t) == Blacken(Plug(c, t)) && FixMovesEmpty(c, t)
  {
  }

  lemma FirstThree(n: seq<TreeNode>)
    requires |n| >= 3 && Rising(n)
    ensures Grows(Leaf, n[0], Single(n[0], Black))
    ensures Grows(Single(n[0], Black), n[1], Fork(Leaf, n[0], Black, Single(n[1], Red)))
    ensures Grows(Fork(Leaf, n[0], Black, Single(n[1], Red)), n[2], Fork(Single(n[0], Red), n[1], Black, Single(n[2], Red)))
  {
    DownRight(Top, Leaf, n[0], Black, Leaf, n[1].key);
    Rests(InRight(Top, Leaf, n[0], Black), Single(n[1], Red));
    DownRight(Top, Leaf, n[0], Black, Single(n[1], Red), n[2].key);
    DownRight(InRight(Top, Leaf, n[0], Black), Leaf, n[1], Red, Leaf, n[2].key);
    Rotates(Top, n[0], n[1], n[2]);
  }

  /** A key below the node goes to the left. */
  lemma DownLeft(c: Ctx, l: Shape, m: TreeNode, k: Color, r: Shape, key: string)
    requires StrCmp(key, m.key) < 0
    ensures Down(c, Fork(l, m, k, r), key) == Down(InLeft(c, m, k, r), l, key)
  {
    StrCmpFlip(key, m.key);
  }

  // the tree after five insertions, up to its right end `e`
  function Five(n: seq<TreeNode>, color: Color, e: Shape): Shape
    requires |n| >= 4
  {
    Fork(Single(n[0], Black), n[1], Black, Fork(Single(n[2], color), n[3], if color == Red then Black else Red, e))
  }

  lemma NextTwo(n: seq<TreeNode>)
    requires |n| >= 5 && Rising(n)
    ensures var four := Fork(Single(n[0], Black), n[1], Black, Fork(Leaf, n[2], Black, Single(n[3], Red)));
      && Grows(Fork(Single(n[0], Red), n[1], Black, Single(n[2], Red)), n[3], four)
      && Grows(four, n[4], Five(n, Red, Single(n[4], Red)))
  {
    DownRight(Top, Single(n[0], Red), n[1], Black, Single(n[2], Red), n[3].key);
    DownRight(InRight(Top, Single(n[0], Red), n[1], Black), Leaf, n[2], Red, Leaf, n[3].key);
    Recolours(Top, n[0], n[1], n[2], n[3]);
    var c := InRight(Top, Single(n[0], Black), n[1], Black);
    DownRight(Top, Single(n[0], Black), n[1], Black, Fork(Leaf, n[2], Black, Single(n[3], Red)), n[4].key);
    DownRight(c, Leaf, n[2], Black, Single(n[3], Red), n[4].key);
    DownRight(InRight(c, Leaf, n[2], Black), Leaf, n[3], Red, Leaf, n[4].key);
    Rotates(c, n[2], n[3], n[4]);
  }

  lemma DownTwo(n: seq<TreeNode>, color: Color, e: Shape, key: string)
    requires |n| == 7 && StrCmp(n[1].key, key) < 0 && StrCmp(n[3].key, key) < 0
    ensures Locate(Five(n, color, e), key) ==
      Down(InRight(InRight(Top, Single(n[0], Black), n[1], Black), Single(n[2], color), n[3], if color == Red then Black else Red), e, key)
  {
    DownRight(Top, Single(n[0], Black), n[1], Black, Five(n, color, e).right, key);
  }

  lemma SixthAndSeventh(n: seq<TreeNode>)
    requires |n| == 7 && Rising(n)
    ensures var six := Five(n, Black, Fork(Leaf, n[4], Black, Single(n[5], Red)));
      && Grows(Five(n, Red, Single(n[4], Red)), n[5], six)
      && Grows(six, n[6], Five(n, Black, Fork(Single(n[4], Red), n[5], Black, Single(n[6], Red))))
  {
    var c := InRight(Top, Single(n[0], Black), n[1], Black);
    var d := InRight(c, Single(n[2], Black), n[3], Red);
    DownTwo(n, Red, Single(n[4], Red), n[5].key);
    DownRight(InRight(c, Single(n[2], Red), n[3], Black), Leaf, n[4], Red, Leaf, n[5].key);
    Recolours(c, n[2], n[3], n[4], n[5]);
    Rests(c, Fork(Single(n[2], Black), n[3], Red, Fork(Leaf, n[4], Black, Single(n[5], Red))));
    DownTwo(n, Black, Fork(Leaf, n[4], Black, Single(n[5], Red)), n[6].key);
    DownRight(d, Leaf, n[4], Black, Single(n[5], Red), n[6].key);
    DownRight(InRight(d, Leaf, n[4], Black), Leaf, n[5], Red, Leaf, n[6].key);
    Rotates(d, n[4], n[5], n[6]);
    var e := Fork(Single(n[4], Red), n[5], Black, Single(n[6], Red));
    assert Plug(d, e) == Plug(c, Fork(Single(n[2], Black), n[3], Red, e));
  }

  /** The tree after seven rising keys, with `inner` below the third node. */
  function Seven(n: seq<TreeNode>, inner: Shape): Shape
    requires |n| == 7
  {
    Fork(Single(n[0], Black), n[1], Black, Fork(Fork(Leaf, n[2], Black, inner), n[3], Red, Fork(Single(n[4], Red), n[5], Black, Single(n[6], Red))))
  }

  /** What the steps make of the whole run. */
  lemma {:induction false} Steps(n: seq<TreeNode>, t: seq<Shape>, k: nat)
    requires k < |t| && k <= |n| && t[0] == Leaf && forall i :: 0 <= i < k ==> Grows(t[i], n[i], t[i + 1])
    ensures Grown(n[..k]) == t[k] && Harmless(n[..k])
  {
    if k > 0 {
      Steps(n, t, k - 1);
      assert n[..k][..k - 1] == n[..k - 1];
      assert Grows(t[k - 1], n[k - 1], t[k]);
    }
  }

  lemma SevenInsertions(n: seq<TreeNode>)
    requires |n| == 7 && Rising(n)
    ensures Harmless(n) && Grown(n) == Seven(n, Leaf)
  {
    FirstThree(n);
    NextTwo(n);
    SixthAndSeventh(n);
    var t := [Leaf, Single(n[0], Black), Fork(Leaf, n[0], Black, Single(n[1], Red)),
      Fork(Single(n[0], Red), n[1], Black, Single(n[2], Red)),
      Fork(Single(n[0], Black), n[1], Black, Fork(Leaf, n[2], Black, Single(n[3], Red))),
      Five(n, Red, Single(n[4], Red)),
      Five(n, Black, Fork(Leaf, n[4], Black, Single(n[5], Red))),
      Five(n, Black, Fork(Single(n[4], Red), n[5], Black, Single(n[6], Red)))];
    Steps(n, t, 7);
    assert n[..7] == n;
  }

  /** A run and one more insertion. */
  lemma OneMoreInsertion(n: seq<TreeNode>, m: TreeNode)
    ensures Grown(n + [m]) == With(Grown(n), m)
    ensures Harmless(n + [m]) <==> Harmless(n) && Spares(Grown(n), m)
  {
    assert (n + [m])[..|n|] == n;
  }

  // ---------- a stale link ----------

  predicate Above(n: seq<TreeNode>, m: TreeNode) {
    forall i :: 0 <= i < |n| ==> StrCmp(n[i].key, m.key) < 0
  }

  // where a key above all others goes
  function RightEnd(n: seq<TreeNode>, inner: Shape): Ctx
    requires |n| == 7
  {
    InRight(InRight(InRight(InRight(Top, Single(n[0], Black), n[1], Black), Fork(Leaf, n[2], Black, inner), n[3], Red),
      Single(n[4], Red), n[5], Black), Leaf, n[6], Red)
  }

  lemma SpineOfTheEnd(n: seq<TreeNode>, inner: Shape)
    requires |n| == 7
    ensures Spine(RightEnd(n, inner)) == {n[1], n[3], n[5], n[6]}
  {
    var c := InRight(Top, Single(n[0], Black), n[1], Black);
    var d := InRight(c, Fork(Leaf, n[2], Black, inner), n[3], Red);
    assert Spine(c) == {n[1]} && Spine(d) == {n[1], n[3]};
    assert Spine(InRight(d, Single(n[4], Red), n[5], Black)) == {n[1], n[3], n[5]};
  }

  predicate NoneTwice(ns: seq<TreeNode>) {
    forall i, j :: 0 <= i < j < |ns| ==> ns[i] != ns[j]
  }

  lemma RisingApart(n: seq<TreeNode>)
    requires Rising(n)
    ensures NoneTwice(n)
  {
    forall i, j | 0 <= i < j < |n| ensures n[i] != n[j] {
      StrCmpFlip(n[i].key, n[j].key);
    }
  }

  lemma AtTheEnd(n: seq<TreeNode>, inner: Shape, m: TreeNode)
    requires |n| == 7 && Above(n, m)
    ensures Locate(Seven(n, inner), m.key) == (RightEnd(n, inner), Leaf)
  {
    var c := InRight(Top, Single(n[0], Black), n[1], Black);
    var d := InRight(c, Fork(Leaf, n[2], Black, inner), n[3], Red);
    DownRight(Top, Single(n[0], Black), n[1], Black, Seven(n, inner).right, m.key);
    DownRight(c, Fork(Leaf, n[2], Black, inner), n[3], Red, Seven(n, inner).right.right, m.key);
    DownRight(d, Single(n[4], Red), n[5], Black, Single(n[6], Red), m.key);
    DownRight(InRight(d, Single(n[4], Red), n[5], Black), Leaf, n[6], Red, Leaf, m.key);
  }

  /** Inserting above all others recolours and then rotates around the subtree of the third node. */
  lemma EndMoves(n: seq<TreeNode>, inner: Shape, m: TreeNode)
    requires |n| == 7 && Above(n, m) && Sorted(Inorder(Seven(n, inner)))
    ensures !Spares(Seven(n, inner), m)
    ensures With(Seven(n, inner), m) ==
      Fork(Fork(Single(n[0], Black), n[1], Red, Fork(Leaf, n[2], Black, inner)), n[3], Black,
           Fork(Single(n[4], Black), n[5], Red, Fork(Leaf, n[6], Black, Single(m, Red))))
  {
    AtTheEnd(n, inner, m);
    var s := Fork(Leaf, n[2], Black, inner);
    var d := InRight(InRight(Top, Single(n[0], Black), n[1], Black), s, n[3], Red);
    Recolours(d, n[4], n[5], n[6], m);
    var u := Fork(Single(n[4], Black), n[5], Red, Fork(Leaf, n[6], Black, Single(m, Red)));
    assert !MovesEmpty(d, u) && !FixMovesEmpty(d, u);
    assert Step(d, u) == (InRight(Top, Fork(Single(n[0], Black), n[1], Red, s), n[3], Black), u);
    Rests(Step(d, u).0, u);
  }

  /** Of eight rising keys the first seven do no harm, the eighth does. */
  lemma EightInsertions(n: seq<TreeNode>)
    requires |n| == 8 && Rising(n)
    ensures Harmless(n[..7]) && !Harmless(n)
  {
    var r, m := n[..7], n[7];
    assert r + [m] == n;
    assert Rising(r) by { assert forall i :: 0 <= i < 7 ==> r[i] == n[i]; }
    SevenInsertions(r);
    EndMoves(r, Leaf, m);
    OneMoreInsertion(r, m);
  }

  // where the two rounds of the fixup after such an insertion lead
  function EndFirst(n: seq<TreeNode>, m: TreeNode): (Ctx, Shape)
    requires |n| == 7
  {
    (InRight(InRight(Top, Single(n[0], Black), n[1], Black), Fork(Leaf, n[2], Black, Leaf), n[3], Red),
     Fork(Single(n[4], Black), n[5], Red, Fork(Leaf, n[6], Black, Single(m, Red))))
  }

  function EndSecond(n: seq<TreeNode>, m: TreeNode): (Ctx, Shape)
    requires |n| == 7
  {
    (InRight(Top, Fork(Single(n[0], Black), n[1], Red, Fork(Leaf, n[2], Black, Leaf)), n[3], Black), EndFirst(n, m).1)
  }

  lemma EndSteps(n: seq<TreeNode>, m: TreeNode)
    requires |n| == 7
    ensures var c, t := RightEnd(n, Leaf), Single(m, Red);
      && BlackRoot(c) && Unbalanced(c) && IsRed(Uncle(c)) && Step(c, t) == EndFirst(n, m) && Way(c, t) == {m, n[6], n[5], n[3], n[1]}
    ensures var (d, u) := EndFirst(n, m);
      u.Fork? && u.node == n[5] && BlackRoot(d) && Unbalanced(d) && Step(d, u) == EndSecond(n, m) && Way(d, u) == {n[5], n[3], n[1]}
    ensures !Unbalanced(EndSecond(n, m).0)
  {
    var d := EndFirst(n, m).0;
    Recolours(d, n[4], n[5], n[6], m);
    SpineOfTheEnd(n, Leaf);
    assert Spine(d) == {n[3]} + Spine(d.up) && Spine(d.up) == {n[1]} + Spine(Top);
  }

  lemma RecolouringKeeps(ok: bool, h: Image, c: Ctx, t: Shape)
    requires StandsAt(false, true, ok, h, c, t) && Unbalanced(c)
    ensures t.Fork? && FixBody(false)(h, t.node).Ended?
    ensures IsRed(Uncle(c)) ==> SameParents(h, FixBody(false)(h, t.node).value.0, {})
  {
    hide StandsAt, Iterate;
    GuardAt(false, true, ok, h, c, t);
    BodyAdvances(false, true, ok, h, c, t);
    if IsRed(Uncle(c)) {
      TreeRefinement.Recolours(false, true, ok, h, c, t);
    }
  }

  lemma NextRound(ok: bool, h: Image, c: Ctx, t: Shape, rounds: nat) returns (ok': bool, h': Image)
    requires StandsAt(false, true, ok, h, c, t) && Unbalanced(c) && rounds > 0
    ensures t.Fork? && BlackRoot(c) && StandsAt(false, true, ok', h', Step(c, t).0, Step(c, t).1)
    ensures Step(c, t).1.Fork? && FixMem(false, h, t.node, rounds) == FixMem(false, h', Step(c, t).1.node, rounds - 1)
    ensures h'.mem.Keys == h.mem.Keys && SameParents(h, h', Way(c, t)) && (IsRed(Uncle(c)) ==> SameParents(h, h', {}))
    ensures ok' <==> ok && MovesEmpty(c, t)
  {
    RecolouringKeeps(ok, h, c, t);
    hide StandsAt, Iterate, FixBody, MovesEmpty, Loops, Way, SameParents, Unbalanced, BlackRoot, Step;
    GuardAt(false, true, ok, h, c, t);
    BodyAdvances(false, true, ok, h, c, t);
    LoopUnfolds(FixBody(false), h, t.node, rounds);
    ok', h' := ok && MovesEmpty(c, t), FixBody(false)(h, t.node).value.0;
    GuardAt(false, true, ok', h', Step(c, t).0, Step(c, t).1);
  }

  lemma LastRound(ok: bool, h: Image, c: Ctx, t: Shape, rounds: nat)
    requires StandsAt(false, true, ok, h, c, t) && !Unbalanced(c)
    ensures t.Fork? && h.root != null && FixMem(false, h, t.node, rounds) == Ended(Image(h.root, WithColor(h.mem, h.root, Black)))
  {
    GuardAt(false, true, ok, h, c, t);
    LoopUnfolds(FixBody(false), h, t.node, rounds);
  }

  /** After the first round the links below the sixth node are as before, and the second round does not touch them. */
  lemma EndRounds(n: seq<TreeNode>, h: Image, m: TreeNode, rounds: nat)
    requires |n| == 7 && StandsAt(false, true, true, h, RightEnd(n, Leaf), Single(m, Red)) && rounds >= 2
    requires n[6] !in {n[1], n[3], n[5]} && m !in {n[1], n[3], n[5]}
    ensures FixMem(false, h, m, rounds).Ended?
    ensures var r := FixMem(false, h, m, rounds).value.mem;
      && Get(r, n[3]).parent == null && Get(r, n[5]).parent == n[3] && Get(r, n[6]).parent == n[5] && Get(r, m).parent == n[6]
  {
    hide StandsAt, Standing, FixMem, Unbalanced, BlackRoot, Step, Way, RightEnd, EndFirst, EndSecond, Uncle, WithColor;
    EndSteps(n, m);
    var ok1, h1 := NextRound(true, h, RightEnd(n, Leaf), Single(m, Red), rounds);
    var ok2, h2 := NextRound(ok1, h1, EndFirst(n, m).0, EndFirst(n, m).1, rounds - 1);
    LastRound(ok2, h2, EndSecond(n, m).0, EndSecond(n, m).1, rounds - 2);
    StartStanding(n, m, h);
    EndStanding(n, m, ok2, h2);
    PaintedPointers(h2.mem, h2.root, Black);
    assert Get(h2.mem, n[6]).parent == Get(h1.mem, n[6]).parent && Get(h2.mem, m).parent == Get(h1.mem, m).parent;
  }

  lemma EndStanding(n: seq<TreeNode>, m: TreeNode, ok: bool, h: Image)
    requires |n| == 7 && StandsAt(false, true, ok, h, EndSecond(n, m).0, EndSecond(n, m).1)
    ensures Get(h.mem, n[3]).parent == null && Get(h.mem, n[5]).parent == n[3]
  {
  }

  lemma StartStanding(n: seq<TreeNode>, m: TreeNode, h: Image)
    requires |n| == 7 && StandsAt(false, true, true, h, RightEnd(n, Leaf), Single(m, Red))
    ensures Get(h.mem, m).parent == n[6] && Get(h.mem, n[6]).parent == n[5] && n[6] in h.mem && m in h.mem
  {
    var c := RightEnd(n, Leaf);
    assert n[6] in CtxNodes(c);
    assert PathLinks(h.mem, c) && PathLinks(h.mem, c.up);
  }

  /** The links on the way to the right end are truthful after such an insertion, if all were before. */
  lemma EndInserts(n: seq<TreeNode>, h: Image, m: TreeNode)
    requires |n| == 7 && Above(n, m) && m !in h.mem && NoneTwice(n + [m])
    requires TreeOf(false, h.root, h.mem, Seven(n, Leaf)) && LinksTrue(h.root, h.mem)
    ensures InsertMem(false, h, m).Ended?
    ensures var r := InsertMem(false, h, m).value.mem;
      && Get(r, n[3]).parent == null && Get(r, n[5]).parent == n[3] && Get(r, n[6]).parent == n[5] && Get(r, m).parent == n[6]
  {
    hide InsertMem, TreeOf, Locate, PathTruthful, Find, LinksTrue, StandsAt, Standing, FixMem, PathLinks, Hang, NoneTwice;
    AtTheEnd(n, Leaf, m);
    SlotKnown(false, h, Seven(n, Leaf), RightEnd(n, Leaf), m.key);
    FindRefines(false, h, Seven(n, Leaf), m.key);
    HangRefines(false, h, Seven(n, Leaf), m, RightEnd(n, Leaf));
    InsertIs(false, h, m, Place(null, n[6], false));
    EndApart(n, m);
    EndRounds(n, Hang(h, m, n[6], false), m, |h.mem| + 1);
  }

  lemma EndApart(n: seq<TreeNode>, m: TreeNode)
    requires |n| == 7 && NoneTwice(n + [m])
    ensures n[6] !in {n[1], n[3], n[5]} && m !in {n[1], n[3], n[5]}
  {
    var ns := n + [m];
    assert ns[1] == n[1] && ns[3] == n[3] && ns[5] == n[5] && ns[6] == n[6] && ns[7] == m;
  }

  /** The search for a ninth rising key meets truthful links only. */
  lemma NinthPath(n: seq<TreeNode>, h: Image, m: TreeNode, key: string)
    requires |n| == 7 && StrCmp(n[3].key, key) < 0 && StrCmp(n[5].key, key) < 0 && StrCmp(n[6].key, key) < 0 && StrCmp(m.key, key) < 0
    requires Get(h.mem, n[3]).parent == null && Get(h.mem, n[5]).parent == n[3] && Get(h.mem, n[6]).parent == n[5] && Get(h.mem, m).parent == n[6]
    ensures PathTruthful(h.mem, Fork(Fork(Single(n[0], Black), n[1], Red, Fork(Leaf, n[2], Black, Leaf)), n[3], Black,
      Fork(Single(n[4], Black), n[5], Red, Fork(Leaf, n[6], Black, Single(m, Red)))), key)
  {
    var side, s := Fork(Single(n[0], Black), n[1], Red, Fork(Leaf, n[2], Black, Leaf)), Fork(Leaf, n[6], Black, Single(m, Red));
    var c := InRight(Top, side, n[3], Black);
    var d := InRight(c, Single(n[4], Black), n[5], Red);
    DownRight(Top, side, n[3], Black, Fork(Single(n[4], Black), n[5], Red, s), key);
    DownRight(c, Single(n[4], Black), n[5], Red, s, key);
    DownRight(d, Leaf, n[6], Black, Single(m, Red), key);
    DownRight(InRight(d, Leaf, n[6], Black), Leaf, m, Red, Leaf, key);
    assert PathLinks(h.mem, c) && PathLinks(h.mem, d);
    var e := InRight(InRight(d, Leaf, n[6], Black), Leaf, m, Red);
    PathLinksOn(h.mem, e, Reads(e));
  }

  lemma SevenHold(n: seq<TreeNode>)
    requires |n| == 7 && Rising(n) && NoneTwice(n)
    ensures RanTo(false, n, RunMem(false, n)) && AllTrue(RunMem(false, n)) && Grown(n) == Seven(n, Leaf)
  {
    hide RunMem, Passable, Grown, Seven, LinksTrue, TreeOf;
    SevenInsertions(n);
    HarmlessPrefix(n, 6);
    HarmlessRun(n);
    RunRefines(false, n);
  }

  /** After eight rising keys one link is stale, but none on the way to the right end. */
  lemma EightHold(n: seq<TreeNode>, m: TreeNode)
    requires |n| == 7 && Rising(n + [m]) && NoneTwice(n + [m])
    ensures Passable(false, n + [m]) && RunMem(false, n + [m]).Ended? && !AllTrue(RunMem(false, n + [m]))
    ensures var h := RunMem(false, n + [m]).value;
      && Get(h.mem, n[3]).parent == null && Get(h.mem, n[5]).parent == n[3] && Get(h.mem, n[6]).parent == n[5] && Get(h.mem, m).parent == n[6]
  {
    hide RunMem, Passable, Grown, Harmless, LinksTrue, TreeOf, InsertMem;
    var r := n + [m];
    assert r[..7] == n && r[..8] == r;
    assert forall i :: 0 <= i < 7 ==> n[i] == r[i];
    EightInsertions(r);
    HarmlessRun(r);
    SevenHold(n);
    RunMemNext(false, r, 7);
    assert r[7] == m;
    EndInserts(n, RunMem(false, n).value, m);
  }

  lemma EightGrown(n: seq<TreeNode>, m: TreeNode)
    requires |n| == 7 && Rising(n + [m])
    ensures Grown(n + [m]) == Fork(Fork(Single(n[0], Black), n[1], Red, Fork(Leaf, n[2], Black, Leaf)), n[3], Black,
      Fork(Single(n[4], Black), n[5], Red, Fork(Leaf, n[6], Black, Single(m, Red))))
  {
    var r := n + [m];
    assert forall i :: 0 <= i < 7 ==> n[i] == r[i];
    assert r[7] == m;
    SevenInsertions(n);
    EndMoves(n, Leaf, m);
    OneMoreInsertion(n, m);
  }

  /** A ninth rising key goes past the stale link that the eighth has left behind. */
  lemma NineRising(ns: seq<TreeNode>)
    requires |ns| == 9 && Rising(ns)
    ensures !AllTrue(RunMem(false, ns[..8])) && Passable(false, ns)
  {
    hide RunMem, Grown, PathTruthful, AllTrue;
    var n, m, r := ns[..7], ns[7], ns[..8];
    assert r == n + [m];
    assert forall i :: 0 <= i < 8 ==> r[i] == ns[i];
    RisingApart(ns);
    EightHold(n, m);
    EightGrown(n, m);
    NinthPath(n, RunMem(false, r).value, m, ns[8].key);
  }

  // eight rising keys into an empty dictionary as written
  method InsertEight(ns: seq<TreeNode>, ghost ops: seq<(string, Value)>) returns (d: Dict)
    requires |ns| == 8 && Rising(ns) && AllDistinct(ns) && Loose(ns, 0, ops)
    modifies Those(ns), ListsOf(Those(ns))
    ensures d.Valid() && d.Contents() == Replay(ops) && !LinksTrue(d.root, d.mem)
  {
    EightInsertions(ns);
    d := InsertHarmless(ns, ops);
  }

  // nine of them: the dictionary is a map still, though one link has been stale since the eighth
  method InsertNine(ns: seq<TreeNode>, ghost ops: seq<(string, Value)>) returns (d: Dict)
    requires |ns| == 9 && Rising(ns) && AllDistinct(ns) && Loose(ns, 0, ops)
    modifies Those(ns), ListsOf(Those(ns))
    ensures d.Valid() && d.Contents() == Replay(ops)
  {
    NineRising(ns);
    PassableSteady(false, ns);
    d := InsertAll(ns, ops);
  }

  // ---------- balance ----------

  // where a key between the third and the fourth goes
  function Middle(n: seq<TreeNode>): Ctx
    requires |n| == 7
  {
    InLeft(InRight(Top, Single(n[0], Black), n[1], Black), n[3], Red, Fork(Single(n[4], Red), n[5], Black, Single(n[6], Red)))
  }

  predicate Between(n: seq<TreeNode>, m: TreeNode)
    requires |n| == 7
  {
    StrCmp(n[1].key, m.key) < 0 && StrCmp(n[2].key, m.key) < 0 && StrCmp(m.key, n[3].key) < 0
  }

  lemma InTheMiddle(n: seq<TreeNode>, inner: Shape, m: TreeNode)
    requires |n| == 7 && Between(n, m)
    ensures Locate(Seven(n, inner), m.key) == Down(InRight(Middle(n), Leaf, n[2], Black), inner, m.key)
  {
    var t := Seven(n, inner);
    DownRight(Top, Single(n[0], Black), n[1], Black, t.right, m.key);
    DownLeft(InRight(Top, Single(n[0], Black), n[1], Black), t.right.left, n[3], Red, t.right.right, m.key);
    DownRight(Middle(n), Leaf, n[2], Black, inner, m.key);
  }

  lemma EighthInTheMiddle(n: seq<TreeNode>, m: TreeNode)
    requires |n| == 7 && Rising(n) && Between(n, m)
    ensures Grown(n + [m]) == Seven(n, Single(m, Red)) && Harmless(n + [m])
  {
    SevenInsertions(n);
    OneMoreInsertion(n, m);
    InTheMiddle(n, Leaf, m);
    var c := InRight(Middle(n), Leaf, n[2], Black);
    assert BlackRoot(Middle(n));
    Rests(c, Single(m, Red));
    assert Plug(c, Single(m, Red)) == Plug(Middle(n), Fork(Leaf, n[2], Black, Single(m, Red)));
    var t := Seven(n, Single(m, Red));
    assert Plug(Middle(n), t.right.left) == Plug(Middle(n).up, t.right) == Plug(Top, t) == t;
  }

  /** A black node with empty or red children that have none. */
  lemma Small(l: Shape, n: TreeNode, r: Shape)
    requires l.Leaf? || l == Single(l.node, Red)
    requires r.Leaf? || r == Single(r.node, Red)
    ensures Even(Fork(l, n, Black, r)) && NoRedRed(Fork(l, n, Black, r)) && Height(Fork(l, n, Black, r)) == 1
  {
    assert Height(Leaf) == 0 && Even(Leaf);
    assert l.Fork? ==> Height(l) == 0 && Even(l) && NoRedRed(l);
    assert r.Fork? ==> Height(r) == 0 && Even(r) && NoRedRed(r);
  }

  lemma SevenIsRedBlack(n: seq<TreeNode>, m: TreeNode)
    requires |n| == 7
    ensures IsRedBlack(Seven(n, Single(m, Red)))
  {
    var t := Seven(n, Single(m, Red));
    Small(Leaf, n[0], Leaf);
    Small(Leaf, n[2], Single(m, Red));
    Small(Single(n[4], Red), n[5], Single(n[6], Red));
    assert t.right == Fork(Fork(Leaf, n[2], Black, Single(m, Red)), n[3], Red, Fork(Single(n[4], Red), n[5], Black, Single(n[6], Red)));
  }

  /** Below the third node `y` goes left of `x`; it is rotated up twice, red the first time and black the second. */
  lemma RotatesBlack(n: seq<TreeNode>, x: TreeNode, y: TreeNode)
    requires |n| == 7 && Between(n, y) && StrCmp(y.key, x.key) < 0
    ensures !KeepsBalance(Seven(n, Single(x, Red)), y)
  {
    InTheMiddle(n, Single(x, Red), y);
    var c := InRight(Middle(n), Leaf, n[2], Black);
    DownLeft(c, Leaf, x, Red, Leaf, y.key);
    var d := InLeft(c, x, Red, Leaf);
    assert BlackRoot(Middle(n)) && BlackRoot(c);
    var t := Fork(Single(n[2], Red), y, Black, Single(x, Red));
    assert Step(d, Single(y, Red)) == (Middle(n), t);
    assert TearsAt(Middle(n), t) && !TurnsRedOnly(Middle(n), t);
  }

  lemma NineRanks(a: seq<TreeNode>)
    requires |a| == 9 && Rising(a)
    ensures var n := [a[0], a[1], a[2], a[5], a[6], a[7], a[8]];
      Rising(n) && Between(n, a[3]) && Between(n, a[4]) && StrCmp(a[3].key, a[4].key) < 0
  {
    var n := [a[0], a[1], a[2], a[5], a[6], a[7], a[8]];
    assert forall i :: 0 <= i < 7 ==> n[i] == a[if i < 3 then i else i + 2];
  }

  /**
   * Nine keys, of which those at positions 4 and 3 come last: after eight insertions the tree is a
   * red-black tree, after the ninth it is not.
   */
  lemma NineInsertions(a: seq<TreeNode>)
    requires |a| == 9 && Rising(a)
    ensures var ns := [a[0], a[1], a[2], a[5], a[6], a[7], a[8], a[4], a[3]];
      IsRedBlack(Grown(ns[..8])) && !IsRedBlack(Grown(ns))
  {
    NineRanks(a);
    hide Grown, IsRedBlack, KeepsBalance, Seven, With, Harmless, Sorted, Inorder, Rising, Between;
    var n, x, y := [a[0], a[1], a[2], a[5], a[6], a[7], a[8]], a[4], a[3];
    var ns := [a[0], a[1], a[2], a[5], a[6], a[7], a[8], a[4], a[3]];
    assert ns[..8] == n + [x] && ns == n + [x] + [y];
    EighthInTheMiddle(n, x);
    SevenIsRedBlack(n, x);
    RotatesBlack(n, x, y);
    InsertionBalances(Grown(n + [x]), y);
    OneMoreInsertion(n + [x], y);
  }
}
