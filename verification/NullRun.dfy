/**
 * A run of nine insertions through the code of common/src/tree.c that follows a null pointer. The seventh
 * leaves two stale parent links behind; misled by one of them, the fixup of the ninth rotates three times
 * at the root and what it becomes, until there is nothing to rotate with.
 */
module NullRun {
  import opened Wrappers
  import opened CString
  import opened TreeShape
  import opened TreeMemory
  import opened TreeRotation
  import opened TreeLinks
  import opened TreeFixup
  import opened TreeProgram
  import opened TreeRefinement
  import opened TreeOrder
  import opened TreeReads
  import opened TreeRuns
  import opened SampleRuns

  // ---------- the ninth insertion ----------

  /** At the loop guard for `d`: its parent names `b`, of which it is no child, and `b` may rotate with `right`. */
  ghost predicate Spinning(h: Image, d: TreeNode, p: TreeNode, b: TreeNode, uncle: TreeNode, right: TreeNode?) {
    && Get(h.mem, d).parent == p && Get(h.mem, p) == Cell(null, d, b, Red)
    && Get(h.mem, b).left == uncle && uncle != p && Get(h.mem, uncle).color == Black
    && Get(h.mem, b).right == right && {b, uncle} !! {d, p} && b != uncle
  }

  /** One round rotates at `b`. */
  lemma Spins(h: Image, d: TreeNode, p: TreeNode, b: TreeNode, uncle: TreeNode, right: TreeNode)
    requires Spinning(h, d, p, b, uncle, right)
    ensures Loops(h.mem, d) && Iterate(false, h, d) == Ended((TurnRight(false, h, b), d))
    ensures TurnsPass(AtNamed(), false, h, d) <==> Named(h, b)
  {
    hide TurnRight, Named;
  }

  /** The rotation gives `b` another right child and leaves the rest as it is. */
  lemma Spun(h: Image, d: TreeNode, p: TreeNode, b: TreeNode, uncle: TreeNode, right: TreeNode)
    requires Spinning(h, d, p, b, uncle, right) && right !in {b, d, p, uncle}
    requires Placed(h.root, h.mem, b, right, Get(h.mem, right).left) && Get(h.mem, b).parent !in {b, d, p, uncle}
    requires Get(h.mem, right).left != null ==> Get(h.mem, right).left != Get(h.mem, b).parent
    ensures var h' := TurnRight(false, h, b);
      && h'.mem.Keys == h.mem.Keys && Spinning(h', d, p, b, uncle, Get(h.mem, right).left) && Get(h'.mem, b).parent == right && Get(h'.mem, right).left == b
      && forall n: TreeNode :: n !in {b, right} && n != Get(h.mem, b).parent ==> Get(h'.mem, n) == Get(h.mem, n)
  {
    hide TurnRight;
    TurnRightIs(false, h, b);
  }

  /** Nothing is left to rotate with. */
  lemma SpinsOut(h: Image, d: TreeNode, p: TreeNode, b: TreeNode, uncle: TreeNode)
    requires Spinning(h, d, p, b, uncle, null)
    ensures Loops(h.mem, d) && Iterate(false, h, d) == NullFollowed && TurnsPass(AtNamed(), false, h, d)
  {
  }

  /** Before the ninth insertion: the root `b` with its children `uncle` and `right`, and `p`, which names `b` without being one of them. */
  ghost predicate Knot(h: Image, p: TreeNode, b: TreeNode, uncle: TreeNode, right: TreeNode, inner: TreeNode) {
    && h.root == b && Get(h.mem, b) == Cell(uncle, right, null, Black) && Get(h.mem, uncle).right == p && Get(h.mem, uncle).color == Black
    && Get(h.mem, p) == Cell(null, null, b, Red) && Get(h.mem, right).left == inner && Get(h.mem, inner).left == null
    && {b, uncle, right, p, inner} <= h.mem.Keys && b != uncle && b != right && b != inner && {uncle, right, inner} !! {p} && b != p
    && uncle !in {right, inner} && right != inner
  }

  lemma NinthSpins(h: Image, d: TreeNode, p: TreeNode, b: TreeNode, uncle: TreeNode, right: TreeNode, inner: TreeNode, rounds: nat)
    requires Knot(h, p, b, uncle, right, inner) && d !in h.mem && rounds >= 3
    ensures FixMem(false, Hang(h, d, p, false), d, rounds) == NullFollowed
    ensures EveryTurn(AtNamed(), false, Hang(h, d, p, false), d, rounds)
  {
    hide TurnRight, Iterate, TurnsPass;
    var h0 := Hang(h, d, p, false);
    assert Spinning(h0, d, p, b, uncle, right);
    Spins(h0, d, p, b, uncle, right);
    Spun(h0, d, p, b, uncle, right);
    var h1 := TurnRight(false, h0, b);
    Spins(h1, d, p, b, uncle, inner);
    Spun(h1, d, p, b, uncle, inner);
    var h2 := TurnRight(false, h1, b);
    SpinsOut(h2, d, p, b, uncle);
    Thrice(h0, h1, h2, d, rounds);
  }

  lemma Thrice(h0: Image, h1: Image, h2: Image, d: TreeNode, rounds: nat)
    requires rounds >= 3 && Loops(h0.mem, d) && Loops(h1.mem, d) && Loops(h2.mem, d)
    requires Iterate(false, h0, d) == Ended((h1, d)) && Iterate(false, h1, d) == Ended((h2, d)) && Iterate(false, h2, d) == NullFollowed
    requires TurnsPass(AtNamed(), false, h0, d) && TurnsPass(AtNamed(), false, h1, d) && TurnsPass(AtNamed(), false, h2, d)
    ensures FixMem(false, h0, d, rounds) == NullFollowed && EveryTurn(AtNamed(), false, h0, d, rounds)
  {
    hide Iterate, TurnsPass;
    assert FixMem(false, h0, d, rounds) == FixMem(false, h1, d, rounds - 1) == FixMem(false, h2, d, rounds - 2);
    assert EveryTurn(AtNamed(), false, h2, d, rounds - 2);
    assert EveryTurn(AtNamed(), false, h1, d, rounds - 1);
  }

  /** Where the ninth key goes. */
  lemma NinthSlot(h: Image, p: TreeNode, b: TreeNode, uncle: TreeNode, right: TreeNode, inner: TreeNode, key: string)
    requires Knot(h, p, b, uncle, right, inner)
    requires StrCmp(b.key, key) > 0 && StrCmp(uncle.key, key) < 0 && StrCmp(p.key, key) < 0
    ensures Find(h, key) == Some(Place(null, p, false))
  {
    var all := h.mem.Keys;
    assert Find(h, key) == Walk(h.mem, uncle, b, true, key, all - {b});
    assert Find(h, key) == Walk(h.mem, p, uncle, false, key, all - {b} - {uncle});
    assert Walk(h.mem, p, uncle, false, key, all - {b} - {uncle}) == Walk(h.mem, null, p, false, key, all - {b} - {uncle} - {p});
  }

  lemma NinthInsertion(h: Image, d: TreeNode, p: TreeNode, b: TreeNode, uncle: TreeNode, right: TreeNode, inner: TreeNode)
    requires Knot(h, p, b, uncle, right, inner) && d !in h.mem
    requires StrCmp(b.key, d.key) > 0 && StrCmp(uncle.key, d.key) < 0 && StrCmp(p.key, d.key) < 0
    ensures InsertMem(false, h, d) == NullFollowed && InsertTurns(AtNamed(), false, h, d)
  {
    hide Find, Hang, FixMem, EveryTurn;
    NinthSlot(h, p, b, uncle, right, inner, d.key);
    InsertIs(false, h, d, Place(null, p, false));
    FiveNodes(h.mem.Keys, b, uncle, right, p, inner);
    NinthSpins(h, d, p, b, uncle, right, inner, |h.mem| + 1);
  }

  lemma FiveNodes(s: set<TreeNode>, a: TreeNode, b: TreeNode, c: TreeNode, d: TreeNode, e: TreeNode)
    requires {a, b, c, d, e} <= s && a != b && a != c && b != c
    ensures |s| >= 3
  {
    assert |{a, b, c}| == 3;
    assert s == {a, b, c} + (s - {a, b, c});
  }

  // ---------- the first eight ----------

  /** Nine nodes in key order, in the order in which they are inserted. */
  function Order(k: seq<TreeNode>): seq<TreeNode>
    requires |k| == 9
  {
    [k[0], k[1], k[2], k[7], k[8], k[5], k[4], k[6], k[3]]
  }

  function Six(k: seq<TreeNode>): Shape
    requires |k| == 9
  {
    Fork(Single(k[0], Black), k[1], Black, Fork(Fork(Leaf, k[2], Black, Single(k[5], Red)), k[7], Red, Single(k[8], Black)))
  }

  function SeventhTree(k: seq<TreeNode>): Shape
    requires |k| == 9
  {
    Fork(Fork(Single(k[0], Black), k[1], Red, Single(k[2], Red)), k[4], Black, Fork(Single(k[5], Red), k[7], Red, Single(k[8], Black)))
  }

  // the way to the third node and what is above it
  function UpToThird(k: seq<TreeNode>): Ctx
    requires |k| == 9
  {
    InLeft(InRight(Top, Single(k[0], Black), k[1], Black), k[7], Red, Single(k[8], Black))
  }

  lemma SixthGrows(k: seq<TreeNode>)
    requires |k| == 9 && Rising(k)
    ensures Grows(Five([k[0], k[1], k[2], k[7], k[8]], Red, Single(k[8], Red)), k[5], Six(k))
  {
    var n := [k[0], k[1], k[2], k[7], k[8]];
    var t := Five(n, Red, Single(k[8], Red));
    var c := InRight(Top, Single(k[0], Black), k[1], Black);
    DownRight(Top, Single(k[0], Black), k[1], Black, t.right, k[5].key);
    DownLeft(c, Single(k[2], Red), k[7], Black, Single(k[8], Red), k[5].key);
    var d := InLeft(c, k[7], Black, Single(k[8], Red));
    DownRight(d, Leaf, k[2], Red, Leaf, k[5].key);
    var u := Fork(Fork(Leaf, k[2], Black, Single(k[5], Red)), k[7], Red, Single(k[8], Black));
    assert Step(InRight(d, Leaf, k[2], Red), Single(k[5], Red)) == (c, u);
    Rests(c, u);
  }

  lemma SixHold(k: seq<TreeNode>)
    requires |k| == 9 && Rising(k)
    ensures Harmless(Order(k)[..6]) && Grown(Order(k)[..6]) == Six(k)
  {
    var n, ns := [k[0], k[1], k[2], k[7], k[8]], Order(k)[..6];
    assert forall i :: 0 <= i < 5 ==> n[i] == k[if i < 3 then i else i + 4];
    assert Rising(n);
    hide Grows, Rising, Harmless, Grown, Five, Six, Order;
    FirstThree(n);
    NextTwo(n);
    SixthGrows(k);
    var t := [Leaf, Single(n[0], Black), Fork(Leaf, n[0], Black, Single(n[1], Red)),
      Fork(Single(n[0], Red), n[1], Black, Single(n[2], Red)),
      Fork(Single(n[0], Black), n[1], Black, Fork(Leaf, n[2], Black, Single(n[3], Red))),
      Five(n, Red, Single(n[4], Red)), Six(k)];
    Steps(ns, t, 6);
    assert ns[..6] == ns;
  }

  // where the seventh goes, and where the two rounds of its fixup lead
  function SeventhAt(k: seq<TreeNode>): Ctx
    requires |k| == 9
  {
    InLeft(InRight(UpToThird(k), Leaf, k[2], Black), k[5], Red, Leaf)
  }

  function SeventhFirst(k: seq<TreeNode>): Shape
    requires |k| == 9
  {
    Fork(Single(k[2], Red), k[4], Black, Single(k[5], Red))
  }

  lemma SeventhSteps(k: seq<TreeNode>)
    requires |k| == 9 && Rising(k)
    ensures Locate(Six(k), k[4].key) == (SeventhAt(k), Leaf)
    ensures var c, t := SeventhAt(k), Single(k[4], Red);
      && BlackRoot(c) && Unbalanced(c) && MovesEmpty(c, t) && Step(c, t) == (UpToThird(k), SeventhFirst(k))
    ensures var c, t := UpToThird(k), SeventhFirst(k);
      && BlackRoot(c) && Unbalanced(c) && Step(c, t) == (Top, SeventhTree(k)) && Way(c, t) == {k[4], k[7], k[1]}
    ensures !Unbalanced(Top)
  {
    var c := InRight(Top, Single(k[0], Black), k[1], Black);
    assert BlackRoot(c) && BlackRoot(UpToThird(k)) && BlackRoot(InRight(UpToThird(k), Leaf, k[2], Black));
    DownRight(Top, Single(k[0], Black), k[1], Black, Six(k).right, k[4].key);
    DownLeft(c, Six(k).right.left, k[7], Red, Single(k[8], Black), k[4].key);
    DownRight(UpToThird(k), Leaf, k[2], Black, Single(k[5], Red), k[4].key);
    DownLeft(InRight(UpToThird(k), Leaf, k[2], Black), Leaf, k[5], Red, Leaf, k[4].key);
    assert Spine(c) == {k[1]} && Spine(UpToThird(k)) == {k[7]} + Spine(c);
  }

  lemma SixthRun(k: seq<TreeNode>)
    requires |k| == 9 && Rising(k)
    ensures RunMem(false, Order(k)[..6]).Ended?
    ensures var h := RunMem(false, Order(k)[..6]).value;
      TreeOf(false, h.root, h.mem, Six(k)) && LinksTrue(h.root, h.mem) && forall n <- h.mem.Keys :: n in Order(k)[..6]
    ensures Passable(false, Order(k)[..6])
  {
    hide RunMem, Passable, TreeOf, LinksTrue;
    var ns := Order(k)[..6];
    SixHold(k);
    OrderApart(k);
    HarmlessPrefix(ns, 5);
    HarmlessRun(ns);
    RunRefines(false, ns);
  }

  lemma OrderApart(k: seq<TreeNode>)
    requires |k| == 9 && Rising(k)
    ensures NoneTwice(Order(k))
  {
    RisingApart(k);
  }

  /** After the seventh insertion the third and the sixth node by key name the fifth as their parent, as they did after the first round of its fixup. */
  lemma SeventhRounds(k: seq<TreeNode>, h: Image, rounds: nat)
    requires |k| == 9 && Rising(k) && rounds >= 2
    requires StandsAt(false, true, true, h, SeventhAt(k), Single(k[4], Red))
    ensures FixMem(false, h, k[4], rounds).Ended?
    ensures var r := FixMem(false, h, k[4], rounds).value.mem;
      Get(r, k[2]).parent == k[4] && Get(r, k[5]).parent == k[4] && Get(r, k[4]).parent == null
  {
    hide StandsAt, Standing, FixMem, Unbalanced, BlackRoot, Step, Way, MovesEmpty, SeventhAt, SeventhFirst, UpToThird, SeventhTree, Uncle, WithColor;
    SeventhSteps(k);
    RisingApart(k);
    var ok1, h1 := NextRound(true, h, SeventhAt(k), Single(k[4], Red), rounds);
    AfterFirst(k, h1);
    var ok2, h2 := NextRound(ok1, h1, UpToThird(k), SeventhFirst(k), rounds - 1);
    LastRound(ok2, h2, Top, SeventhTree(k), rounds - 2);
    AfterSecond(k, ok2, h2);
    PaintedPointers(h2.mem, h2.root, Black);
  }

  lemma AfterFirst(k: seq<TreeNode>, h: Image)
    requires |k| == 9 && StandsAt(false, true, true, h, UpToThird(k), SeventhFirst(k))
    ensures Get(h.mem, k[2]).parent == k[4] && Get(h.mem, k[5]).parent == k[4]
    ensures k[2] in h.mem && k[5] in h.mem && SeventhFirst(k).node == k[4]
  {
    assert k[2] in Nodes(SeventhFirst(k)) && k[5] in Nodes(SeventhFirst(k)) && k[4] in Nodes(SeventhFirst(k));
    assert Get(h.mem, k[4]).left == k[2] && Get(h.mem, k[4]).right == k[5];
  }

  lemma AfterSecond(k: seq<TreeNode>, ok: bool, h: Image)
    requires |k| == 9 && StandsAt(false, true, ok, h, Top, SeventhTree(k))
    ensures Get(h.mem, k[4]).parent == null && SeventhTree(k).node == k[4]
  {
  }

  /** The pointers that the last two insertions meet. */
  ghost predicate Tangled(h: Image, k: seq<TreeNode>)
    requires |k| == 9
  {
    && h.root == k[4] && Get(h.mem, k[4]) == Cell(k[1], k[7], null, Black)
    && Get(h.mem, k[1]).right == k[2] && Get(h.mem, k[1]).color == Red
    && Get(h.mem, k[2]) == Cell(null, null, k[4], Red) && Get(h.mem, k[5]) == Cell(null, null, k[4], Red)
    && Get(h.mem, k[7]).left == k[5] && {k[1], k[2], k[4], k[5], k[7]} <= h.mem.Keys
  }

  lemma ReadsTangled(k: seq<TreeNode>, h: Image)
    requires |k| == 9 && TreeOf(false, h.root, h.mem, SeventhTree(k))
    requires Get(h.mem, k[2]).parent == k[4] && Get(h.mem, k[5]).parent == k[4] && Get(h.mem, k[4]).parent == null
    ensures Tangled(h, k)
  {
    var t := SeventhTree(k);
    assert Rep(h.mem, t) && Rep(h.mem, t.left) && Rep(h.mem, t.right) && Rep(h.mem, t.left.right) && Rep(h.mem, t.right.left);
    assert k[1] in Nodes(t.left) && k[2] in Nodes(t.left.right) && k[7] in Nodes(t.right) && k[5] in Nodes(t.right.left);
    assert Nodes(t.left.right) <= Nodes(t.left) <= Nodes(t) && Nodes(t.right.left) <= Nodes(t.right) <= Nodes(t);
  }

  lemma SeventhInsertion(k: seq<TreeNode>, h: Image)
    requires |k| == 9 && Rising(k) && k[4] !in h.mem
    requires TreeOf(false, h.root, h.mem, Six(k)) && LinksTrue(h.root, h.mem)
    ensures InsertsSteady(false, h, k[4])
    ensures var r := InsertMem(false, h, k[4]).value;
      Tangled(r, k) && TreeOf(false, r.root, r.mem, SeventhTree(k)) && r.mem.Keys == h.mem.Keys + {k[4]}
  {
    hide InsertMem, TreeOf, Locate, PathTruthful, Find, LinksTrue, StandsAt, Standing, FixMem, PathLinks, Hang, InsertTurns, With, Spares, SameParents, Six, SeventhAt, SeventhTree, Tangled;
    SeventhSteps(k);
    PathsTrue(false, h, Six(k), k[4].key);
    SlotKnown(false, h, Six(k), SeventhAt(k), k[4].key);
    FindRefines(false, h, Six(k), k[4].key);
    HangRefines(false, h, Six(k), k[4], SeventhAt(k));
    SeventhRounds(k, Hang(h, k[4], ParentPtr(SeventhAt(k)), SeventhAt(k).InLeft?), |h.mem| + 1);
    InsertIs(false, h, k[4], PlaceOf(SeventhAt(k), Leaf));
    InsertRefines(false, h, Six(k), k[4]);
    SeventhWith(k);
    ReadsTangled(k, InsertMem(false, h, k[4]).value);
  }

  lemma SeventhWith(k: seq<TreeNode>)
    requires |k| == 9 && Rising(k)
    ensures !IsRed(Six(k)) && Sorted(Inorder(Six(k))) ==> With(Six(k), k[4]) == SeventhTree(k)
  {
    hide Locate, BlackRoot, Step, Unbalanced, MovesEmpty, Way;
    SeventhSteps(k);
    if !IsRed(Six(k)) && Sorted(Inorder(Six(k))) {
      InsertedTree(Six(k), k[4]);
      FixUnfolds(SeventhAt(k), Single(k[4], Red));
      FixUnfolds(UpToThird(k), SeventhFirst(k));
      FixUnfolds(Top, SeventhTree(k));
    }
  }

  // ---------- the eighth ----------

  /** The eighth insertion recolours, led astray but without harm: it takes the root for the grandparent. */
  lemma EighthRound(k: seq<TreeNode>, h: Image, rounds: nat)
    requires |k| == 9 && Rising(k) && Tangled(h, k) && k[6] !in h.mem && rounds >= 1
    ensures var h0 := Hang(h, k[6], k[5], false);
      && FixMem(false, h0, k[6], rounds).Ended? && EveryTurn(AtNamed(), false, h0, k[6], rounds)
      && FixMem(false, h0, k[6], rounds).value.mem.Keys == h.mem.Keys + {k[6]}
      && Knot(FixMem(false, h0, k[6], rounds).value, k[2], k[4], k[1], k[7], k[5])
  {
    RisingApart(k);
    var h0 := Hang(h, k[6], k[5], false);
    var h1 := Image(h.root, Paint3(h0.mem, k[5], k[1], k[4]));
    IterateIs(false, h0, k[6], k[5], k[4], k[1]);
    assert Iterate(false, h0, k[6]) == Ended((h1, k[4]));
    assert !Loops(h1.mem, k[4]);
    var h2 := Image(h1.root, WithColor(h1.mem, k[4], Black));
    assert Knot(h2, k[2], k[4], k[1], k[7], k[5]);
    LoopUnfolds(FixBody(false), h0, k[6], rounds);
    LoopUnfolds(FixBody(false), h1, k[4], rounds - 1);
  }

  function EighthAt(k: seq<TreeNode>): Ctx
    requires |k| == 9
  {
    InRight(InLeft(InRight(Top, SeventhTree(k).left, k[4], Black), k[7], Red, Single(k[8], Black)), Leaf, k[5], Red)
  }

  lemma EighthPlace(k: seq<TreeNode>)
    requires |k| == 9 && Rising(k)
    ensures Locate(SeventhTree(k), k[6].key) == (EighthAt(k), Leaf)
  {
    var t := SeventhTree(k);
    DownRight(Top, t.left, k[4], Black, t.right, k[6].key);
    var c := InRight(Top, t.left, k[4], Black);
    DownLeft(c, Single(k[5], Red), k[7], Red, Single(k[8], Black), k[6].key);
    DownRight(InLeft(c, k[7], Red, Single(k[8], Black)), Leaf, k[5], Red, Leaf, k[6].key);
  }

  lemma EighthSlot(k: seq<TreeNode>, h: Image)
    requires |k| == 9 && Rising(k) && TreeOf(false, h.root, h.mem, SeventhTree(k))
    ensures Find(h, k[6].key) == Some(Place(null, k[5], false))
  {
    hide Find;
    FindRefines(false, h, SeventhTree(k), k[6].key);
    EighthPlace(k);
  }

  /** The eighth insertion reads a stale link. */
  lemma EighthMisled(k: seq<TreeNode>, h: Image)
    requires |k| == 9 && Rising(k) && Tangled(h, k)
    ensures !PathTruthful(h.mem, SeventhTree(k), k[6].key)
  {
    EighthPlace(k);
    RisingApart(k);
    var c := EighthAt(k);
    assert BlackRoot(c) by { assert BlackRoot(c.up); }
    assert k[5] in Reads(c);
  }

  lemma EighthInsertion(k: seq<TreeNode>, h: Image)
    requires |k| == 9 && Rising(k) && k[6] !in h.mem && Tangled(h, k) && TreeOf(false, h.root, h.mem, SeventhTree(k))
    ensures InsertsSteady(false, h, k[6])
    ensures var r := InsertMem(false, h, k[6]).value; Knot(r, k[2], k[4], k[1], k[7], k[5]) && r.mem.Keys == h.mem.Keys + {k[6]}
  {
    hide Find, Hang, FixMem, EveryTurn, TreeOf, Tangled, Knot;
    EighthSlot(k, h);
    InsertIs(false, h, k[6], Place(null, k[5], false));
    EighthRound(k, h, |h.mem| + 1);
  }

  lemma NotYet(k: seq<TreeNode>)
    requires |k| == 9 && Rising(k)
    ensures k[4] !in Order(k)[..6] && k[6] !in Order(k)[..6] && k[3] !in Order(k)[..6] && k[4] != k[6] && k[3] != k[4] && k[3] != k[6]
    ensures Order(k)[6] == k[4] && Order(k)[7] == k[6] && Order(k)[8] == k[3]
  {
    OrderApart(k);
    var ns := Order(k);
    assert ns[6] == k[4] && ns[7] == k[6] && ns[8] == k[3];
    assert forall i :: 0 <= i < 6 ==> ns[..6][i] == ns[i];
  }

  /**
   * Eight insertions end with a search tree, though the fixup of the eighth reads a stale link. The ninth
   * follows a null pointer, though up to there every rotation is at a node that names its parent.
   */
  lemma NineFollowNull(k: seq<TreeNode>)
    requires |k| == 9 && Rising(k)
    ensures Steady(false, Order(k)[..8]) && !Passable(false, Order(k)[..8])
    ensures RunMem(false, Order(k)) == NullFollowed && RunTurns(AtNamed(), false, Order(k))
  {
    hide InsertMem, Passable, PathTruthful, Grown, SeventhTree, TreeOf, LinksTrue, Tangled, Knot, InsertTurns, StrCmp;
    var ns := Order(k);
    NotYet(k);
    SixthRun(k);
    PassableSteady(false, ns[..6]);
    var h6 := RunMem(false, ns[..6]).value;
    SeventhInsertion(k, h6);
    SteadyNext(ns, 6);
    var h7 := RunMem(false, ns[..7]).value;
    EighthInsertion(k, h7);
    SteadyNext(ns, 7);
    EighthMisled(k, h7);
    SevenGrown(k);
    NotPassable(ns);
    var h8 := RunMem(false, ns[..8]).value;
    StrCmpFlip(k[3].key, k[4].key);
    NinthInsertion(h8, k[3], k[2], k[4], k[1], k[7], k[5]);
    assert ns[..9] == ns && ns[..9][..8] == ns[..8];
  }

  lemma SevenGrown(k: seq<TreeNode>)
    requires |k| == 9 && Rising(k)
    ensures Grown(Order(k)[..7]) == SeventhTree(k)
  {
    hide Six, SeventhTree, With;
    SixHold(k);
    SeventhWith(k);
    var ns := Order(k)[..7];
    assert ns[..6] == Order(k)[..6] && ns[6] == k[4];
  }

  lemma NotPassable(ns: seq<TreeNode>)
    requires |ns| == 9 && RunMem(false, ns[..7]).Ended? && !PathTruthful(RunMem(false, ns[..7]).value.mem, Grown(ns[..7]), ns[7].key)
    ensures !Passable(false, ns[..8])
  {
    hide RunMem, PathTruthful, Grown;
    assert ns[..8][..7] == ns[..7] && ns[..8][7] == ns[7];
  }

  lemma SteadyNext(ns: seq<TreeNode>, i: nat)
    requires i < |ns| && Steady(false, ns[..i]) && InsertsSteady(false, RunMem(false, ns[..i]).value, ns[i])
    ensures Steady(false, ns[..i + 1]) && RunMem(false, ns[..i + 1]) == InsertMem(false, RunMem(false, ns[..i]).value, ns[i])
  {
    hide InsertMem, InsertTurns;
    assert ns[..i + 1][..i] == ns[..i];
  }
}
