/**
 * A run of ten insertions through the code of common/src/tree.c after which six keys are not found any
 * more: the ninth leaves a stale parent link behind, and the tenth rotates around the node that has it.
 */
module LostKeys {
  import opened Wrappers
  import opened CString
  import opened TreeShape
  import opened TreeMemory
  import opened TreeLinks
  import opened TreeFixup
  import opened TreeProgram
  import opened TreeRefinement
  import opened TreeReads
  import opened TreeRuns
  import opened Dictionary
  import opened DictionaryRuns
  import opened SampleRuns

  /** Nine of ten keys, the last of them above all others: the ninth insertion moves the subtree of the third node. */
  lemma NineHold(n: seq<TreeNode>, d: TreeNode, j: TreeNode)
    requires |n| == 7 && Rising(n) && Between(n, d) && Above(n, j)
    ensures Harmless(n + [d])
    ensures Grown(n + [d] + [j]) ==
      Fork(Fork(Single(n[0], Black), n[1], Red, Fork(Leaf, n[2], Black, Single(d, Red))), n[3], Black,
           Fork(Single(n[4], Black), n[5], Red, Fork(Leaf, n[6], Black, Single(j, Red))))
  {
    EighthInTheMiddle(n, d);
    OneMoreInsertion(n + [d], j);
    EndMoves(n, Single(d, Red), j);
  }

  // the tree after nine insertions
  function Nine(n: seq<TreeNode>, d: TreeNode, j: TreeNode): Shape
    requires |n| == 7
  {
    Fork(Fork(Single(n[0], Black), n[1], Red, Fork(Leaf, n[2], Black, Single(d, Red))), n[3], Black,
         Fork(Single(n[4], Black), n[5], Red, Fork(Leaf, n[6], Black, Single(j, Red))))
  }

  /** Eight insertions leave all links truthful. */
  lemma EighthLinks(n: seq<TreeNode>, d: TreeNode)
    requires |n| == 7 && Rising(n) && Between(n, d) && NoneTwice(n + [d])
    ensures RanTo(false, n + [d], RunMem(false, n + [d])) && Grown(n + [d]) == Seven(n, Single(d, Red))
    ensures var m := RunMem(false, n + [d]).value.mem; Get(m, n[2]).parent == n[3] && Get(m, d).parent == n[2]
  {
    EighthInTheMiddle(n, d);
    assert (n + [d])[..7] == n;
    HarmlessPrefix(n + [d], 7);
    HarmlessRun(n + [d]);
    RunRefines(false, n + [d]);
    var h := RunMem(false, n + [d]).value;
    ChildrenOf(h, Seven(n, Single(d, Red)));
    var t := Seven(n, Single(d, Red));
    assert Rep(h.mem, t.right) && Rep(h.mem, t.right.left);
    assert Get(h.mem, n[3]).left == n[2] && Get(h.mem, n[2]).right == d;
  }

  lemma ChildrenOf(h: Image, t: Shape)
    requires TreeOf(false, h.root, h.mem, t)
    ensures Rep(h.mem, t) && h.root == Ptr(t) && Nodes(t) == h.mem.Keys
  {
  }

  lemma NinthRuns(n: seq<TreeNode>, d: TreeNode, j: TreeNode)
    requires |n| == 7 && Rising(n) && Between(n, d) && Above(n, j) && NoneTwice(n + [d] + [j])
    ensures Passable(false, n + [d] + [j]) && RanTo(false, n + [d] + [j], RunMem(false, n + [d] + [j]))
    ensures Grown(n + [d] + [j]) == Nine(n, d, j)
  {
    hide InsertMem, TreeOf, LinksTrue, Passable, RunMem, Grown, Spares;
    NineHold(n, d, j);
    var ns := n + [d] + [j];
    assert ns[..8] == n + [d];
    HarmlessRun(ns);
    RunRefines(false, ns);
  }

  /** After the ninth the third node still names the fourth as its parent, which it has left. */
  lemma NinthLinks(n: seq<TreeNode>, d: TreeNode, j: TreeNode)
    requires |n| == 7 && Rising(n) && Between(n, d) && Above(n, j) && NoneTwice(n + [d] + [j])
    ensures RunMem(false, n + [d] + [j]).Ended?
    ensures var m := RunMem(false, n + [d] + [j]).value.mem; Get(m, n[2]).parent == n[3] && Get(m, d).parent == n[2]
  {
    var r, ns := n + [d], n + [d] + [j];
    assert forall i :: 0 <= i < 8 ==> r[i] == ns[i];
    assert j !in r by { assert ns[8] == j; }
    EighthLinks(n, d);
    NinthStep(n, d, j, r, ns);
  }

  lemma NinthStep(n: seq<TreeNode>, d: TreeNode, j: TreeNode, r: seq<TreeNode>, ns: seq<TreeNode>)
    requires |n| == 7 && Rising(n) && Between(n, d) && Above(n, j) && NoneTwice(ns)
    requires r == n + [d] && ns == r + [j] && j !in r
    requires RanTo(false, r, RunMem(false, r)) && Grown(r) == Seven(n, Single(d, Red))
    ensures RunMem(false, ns).Ended?
    ensures var m, m' := RunMem(false, r).value.mem, RunMem(false, ns).value.mem;
      Get(m', n[2]).parent == Get(m, n[2]).parent && Get(m', d).parent == Get(m, d).parent
  {
    hide InsertMem, RunMem, Passable, Grown;
    var h := RunMem(false, r).value;
    assert ns[..8] == r && ns[..9] == ns;
    RunMemNext(false, ns, 8);
    EighthTrue(n, d);
    NinthFrame(n, d, j, h);
  }

  lemma EighthTrue(n: seq<TreeNode>, d: TreeNode)
    requires |n| == 7 && Rising(n) && Between(n, d) && NoneTwice(n + [d])
    ensures AllTrue(RunMem(false, n + [d]))
  {
    hide RunMem, Passable, LinksTrue;
    EighthInTheMiddle(n, d);
    assert (n + [d])[..7] == n;
    HarmlessPrefix(n + [d], 7);
    HarmlessRun(n + [d]);
  }

  lemma NodesOfSeven(n: seq<TreeNode>, d: TreeNode)
    requires |n| == 7
    ensures n[2] in Nodes(Seven(n, Single(d, Red))) && d in Nodes(Seven(n, Single(d, Red)))
  {
    var t := Seven(n, Single(d, Red));
    assert n[2] in Nodes(t.right.left) && d in Nodes(t.right.left.right);
    assert Nodes(t.right.left) <= Nodes(t.right) <= Nodes(t);
  }

  lemma NinthFrame(n: seq<TreeNode>, d: TreeNode, j: TreeNode, h: Image)
    requires |n| == 7 && Above(n, j) && NoneTwice(n + [d] + [j]) && j !in h.mem
    requires TreeOf(false, h.root, h.mem, Seven(n, Single(d, Red))) && LinksTrue(h.root, h.mem)
    ensures InsertMem(false, h, j).Ended?
    ensures var m := InsertMem(false, h, j).value.mem; Get(m, n[2]).parent == Get(h.mem, n[2]).parent && Get(m, d).parent == Get(h.mem, d).parent
  {
    hide InsertMem, With, Spares, LinksTrue, TreeOf, Locate, PathTruthful, Spine, Nodes;
    var t := Seven(n, Single(d, Red));
    PathsTrue(false, h, t, j.key);
    InsertRefines(false, h, t, j);
    AtTheEnd(n, Single(d, Red), j);
    ChildrenOf(h, t);
    SpineOfTheEnd(n, Single(d, Red));
    NodesOfSeven(n, d);
    var ns := n + [d] + [j];
    assert ns[1] == n[1] && ns[2] == n[2] && ns[3] == n[3] && ns[5] == n[5] && ns[6] == n[6] && ns[7] == d && ns[8] == j;
  }

  /** The pointers of the nodes that matter for the tenth insertion, of which `top` is the root. */
  ghost predicate Around3(h: Image, side: TreeNode, top: TreeNode, right: TreeNode?, third: TreeNode, d: TreeNode) {
    && h.root == top && side in h.mem && top in h.mem && third in h.mem && d in h.mem
    && Get(h.mem, top).left == side && Get(h.mem, top).right == right && Get(h.mem, side).right == third
    && Get(h.mem, third).left == null && Get(h.mem, third).color == Black
    && NoneTwice([side, top, third, d])
  }

  // before the tenth insertion, with the stale link from the third node to the top
  ghost predicate Before(h: Image, side: TreeNode, top: TreeNode, right: TreeNode?, third: TreeNode, d: TreeNode) {
    && Around3(h, side, top, right, third, d)
    && Get(h.mem, third).right == d && Get(h.mem, third).parent == top
    && Get(h.mem, d).left == null && Get(h.mem, d).right == null && Get(h.mem, d).parent == third && Get(h.mem, d).color == Red
  }

  // after it
  ghost predicate After(h: Image, side: TreeNode, top: TreeNode, third: TreeNode, d: TreeNode, e: TreeNode) {
    && h.root == top && side in h.mem && top in h.mem && third in h.mem && d in h.mem && e in h.mem
    && Get(h.mem, top).left == side && Get(h.mem, top).right == d && Get(h.mem, side).right == third
    && Get(h.mem, third).right == null && Get(h.mem, d).right == e && Get(h.mem, e).right == null
    && NoneTwice([side, top, third, d, e])
  }

  /** Hung below `d`, `e` makes the third node rotate, and through its stale link `d` goes below the top. */
  lemma Misplaces(h: Image, side: TreeNode, top: TreeNode, right: TreeNode?, third: TreeNode, d: TreeNode, e: TreeNode)
    requires Before(h, side, top, right, third, d) && e !in h.mem
    ensures var h1 := Hang(h, e, d, false);
      && Loops(h1.mem, e) && Get(h1.mem, third).right != null
      && Iterate(false, h1, e) == Ended((TurnRight(false, h1, third), e))
      && var h2 := TurnRight(false, h1, third);
         && !Loops(h2.mem, e) && h2.root == top
         && After(Image(top, WithColor(h2.mem, top, Black)), side, top, third, d, e)
  {
    var h1 := Hang(h, e, d, false);
    assert [side, top, third, d][0] == side && [side, top, third, d][1] == top && [side, top, third, d][2] == third && [side, top, third, d][3] == d;
    IterateIs(false, h1, e, d, third, null);
  }

  lemma TenthLoses(h: Image, side: TreeNode, top: TreeNode, right: TreeNode?, third: TreeNode, d: TreeNode, e: TreeNode)
    requires Before(h, side, top, right, third, d) && e !in h.mem
    requires Find(h, e.key) == Some(Place(null, d, false))
    ensures InsertMem(false, h, e).Ended? && After(InsertMem(false, h, e).value, side, top, third, d, e)
  {
    Misplaces(h, side, top, right, third, d, e);
    hide TurnRight, Iterate, Find;
    InsertIs(false, h, e, Place(null, d, false));
    var h1 := Hang(h, e, d, false);
    LoopUnfolds(FixBody(false), h1, e, |h.mem| + 1);
    LoopUnfolds(FixBody(false), TurnRight(false, h1, third), e, |h.mem|);
  }

  /** What lies above the third node, except for the top, is not found any more. */
  lemma NotFound(h: Image, side: TreeNode, top: TreeNode, third: TreeNode, d: TreeNode, e: TreeNode, key: string)
    requires After(h, side, top, third, d, e)
    requires StrCmp(side.key, key) < 0 && StrCmp(third.key, key) < 0
    requires StrCmp(key, top.key) < 0 || (StrCmp(top.key, key) < 0 && StrCmp(d.key, key) < 0 && StrCmp(e.key, key) < 0)
    ensures Find(h, key).Some? && Find(h, key).value.node == null
  {
    assert [side, top, third, d, e][0] == side && [side, top, third, d, e][1] == top && [side, top, third, d, e][2] == third
      && [side, top, third, d, e][3] == d && [side, top, third, d, e][4] == e;
    var all := h.mem.Keys;
    if StrCmp(key, top.key) < 0 {
      StrCmpFlip(key, top.key);
      assert Find(h, key) == Walk(h.mem, side, top, true, key, all - {top});
      assert Find(h, key) == Walk(h.mem, third, side, false, key, all - {top} - {side});
      assert Walk(h.mem, third, side, false, key, all - {top} - {side}) == Some(Place(null, third, false));
    } else {
      assert Find(h, key) == Walk(h.mem, d, top, false, key, all - {top});
      assert Find(h, key) == Walk(h.mem, e, d, false, key, all - {top} - {d});
      assert Walk(h.mem, e, d, false, key, all - {top} - {d}) == Some(Place(null, e, false));
    }
  }

  lemma NinthBefore(n: seq<TreeNode>, d: TreeNode, j: TreeNode)
    requires |n| == 7 && Rising(n) && Between(n, d) && Above(n, j) && NoneTwice(n + [d] + [j])
    ensures RunMem(false, n + [d] + [j]).Ended?
    ensures Before(RunMem(false, n + [d] + [j]).value, n[1], n[3], n[5], n[2], d)
  {
    hide RunMem, Passable, Grown, Nine, TreeOf, Before, NoneTwice;
    NinthRuns(n, d, j);
    NinthLinks(n, d, j);
    FourApart(n, d, j);
    ReadsBefore(RunMem(false, n + [d] + [j]).value, n, d, j);
  }

  lemma FourApart(n: seq<TreeNode>, d: TreeNode, j: TreeNode)
    requires |n| == 7 && NoneTwice(n + [d] + [j])
    ensures NoneTwice([n[1], n[3], n[2], d])
  {
    var ns := n + [d] + [j];
    assert ns[1] == n[1] && ns[2] == n[2] && ns[3] == n[3] && ns[7] == d;
  }

  lemma ReadsBefore(h: Image, n: seq<TreeNode>, d: TreeNode, j: TreeNode)
    requires |n| == 7 && TreeOf(false, h.root, h.mem, Nine(n, d, j)) && NoneTwice([n[1], n[3], n[2], d])
    requires Get(h.mem, n[2]).parent == n[3] && Get(h.mem, d).parent == n[2]
    ensures Before(h, n[1], n[3], n[5], n[2], d)
  {
    ChildrenOf(h, Nine(n, d, j));
    NineCells(h, n, d, j);
  }

  lemma NineCells(h: Image, n: seq<TreeNode>, d: TreeNode, j: TreeNode)
    requires |n| == 7 && Rep(h.mem, Nine(n, d, j)) && Nodes(Nine(n, d, j)) == h.mem.Keys
    ensures n[1] in h.mem && n[2] in h.mem && n[3] in h.mem && d in h.mem
    ensures Get(h.mem, n[3]).left == n[1] && Get(h.mem, n[3]).right == n[5] && Get(h.mem, n[1]).right == n[2]
    ensures Get(h.mem, n[2]).left == null && Get(h.mem, n[2]).right == d && Get(h.mem, n[2]).color == Black
    ensures Get(h.mem, d).left == null && Get(h.mem, d).right == null && Get(h.mem, d).color == Red
  {
    var t := Nine(n, d, j);
    assert Rep(h.mem, t.left) && Rep(h.mem, t.left.right) && Rep(h.mem, t.left.right.right);
    assert n[1] in Nodes(t.left) && n[2] in Nodes(t.left.right) && d in Nodes(t.left.right.right);
    assert Nodes(t.left.right.right) <= Nodes(t.left.right) <= Nodes(t.left) <= Nodes(t);
  }

  /** Ten nodes in the order in which they are inserted: the last goes between the fourth and the sixth by key. */
  function Order(a: seq<TreeNode>): seq<TreeNode>
    requires |a| == 10
  {
    [a[0], a[1], a[2], a[5], a[6], a[7], a[8]] + [a[3]] + [a[9]] + [a[4]]
  }

  lemma OrderApart(a: seq<TreeNode>)
    requires |a| == 10 && Rising(a)
    ensures NoneTwice(Order(a))
  {
    RisingApart(a);
    assert Order(a) == [a[0], a[1], a[2], a[5], a[6], a[7], a[8], a[3], a[9], a[4]];
  }

  /** Where the search for the tenth key ends: below the eighth node. */
  lemma TenthPlace(n: seq<TreeNode>, d: TreeNode, j: TreeNode, e: TreeNode)
    requires |n| == 7 && Rising(n) && Between(n, e) && StrCmp(d.key, e.key) < 0
    ensures Locate(Nine(n, d, j), e.key).1 == Leaf && ParentPtr(Locate(Nine(n, d, j), e.key).0) == d && Locate(Nine(n, d, j), e.key).0.InRight?
  {
    var t := Nine(n, d, j);
    DownLeft(Top, t.left, n[3], Black, t.right, e.key);
    var c := InLeft(Top, n[3], Black, t.right);
    DownRight(c, Single(n[0], Black), n[1], Red, t.left.right, e.key);
    DownRight(InRight(c, Single(n[0], Black), n[1], Red), Leaf, n[2], Black, Single(d, Red), e.key);
    DownRight(InRight(InRight(c, Single(n[0], Black), n[1], Red), Leaf, n[2], Black), Leaf, d, Red, Leaf, e.key);
  }

  lemma TenthRun(n: seq<TreeNode>, d: TreeNode, j: TreeNode, e: TreeNode)
    requires |n| == 7 && Rising(n) && Between(n, d) && Above(n, j) && NoneTwice(n + [d] + [j] + [e])
    requires Between(n, e) && StrCmp(d.key, e.key) < 0
    ensures RunMem(false, n + [d] + [j] + [e]).Ended?
    ensures After(RunMem(false, n + [d] + [j] + [e]).value, n[1], n[3], n[2], d, e)
    ensures RunMem(false, n + [d] + [j]).Ended?
    ensures RunMem(false, n + [d] + [j] + [e]) == InsertMem(false, RunMem(false, n + [d] + [j]).value, e)
  {
    hide RunMem, Passable, Grown, Before, After, InsertMem, Nine, Locate, TreeOf, NoneTwice, Rising, Between, Above;
    var nine, ns := n + [d] + [j], n + [d] + [j] + [e];
    NoneTwiceLess(nine, e);
    NinthBefore(n, d, j);
    NinthRuns(n, d, j);
    TenthPlace(n, d, j, e);
    var h := RunMem(false, nine).value;
    FindRefines(false, h, Nine(n, d, j), e.key);
    assert ns[..9] == nine && ns[..10] == ns;
    RunMemNext(false, ns, 9);
    TenthLoses(h, n[1], n[3], n[5], n[2], d, e);
  }

  lemma NoneTwiceLess(ns: seq<TreeNode>, e: TreeNode)
    requires NoneTwice(ns + [e])
    ensures NoneTwice(ns) && e !in ns
  {
    assert (ns + [e])[|ns|] == e;
    assert forall i :: 0 <= i < |ns| ==> ns[i] == (ns + [e])[i];
  }

  /** What the order of the ten keys says about the seven that come first and the three others. */
  lemma Ranks(a: seq<TreeNode>)
    requires |a| == 10 && Rising(a)
    ensures var n, d, j, e := [a[0], a[1], a[2], a[5], a[6], a[7], a[8]], a[3], a[9], a[4];
      Rising(n) && Between(n, d) && Between(n, e) && Above(n, j) && StrCmp(d.key, e.key) < 0
  {
    var n := [a[0], a[1], a[2], a[5], a[6], a[7], a[8]];
    assert forall i :: 0 <= i < 7 ==> n[i] == a[if i < 3 then i else i + 2];
  }

  lemma Beyond(a: seq<TreeNode>, i: nat)
    requires |a| == 10 && Rising(a) && 3 <= i < 10 && i != 5
    ensures StrCmp(a[1].key, a[i].key) < 0 && StrCmp(a[2].key, a[i].key) < 0
    ensures StrCmp(a[i].key, a[5].key) < 0 || (StrCmp(a[5].key, a[i].key) < 0 && StrCmp(a[3].key, a[i].key) < 0 && StrCmp(a[4].key, a[i].key) < 0)
  {
  }

  lemma InNine(n: seq<TreeNode>, d: TreeNode, j: TreeNode, x: TreeNode)
    requires |n| == 7 && x in n + [d] + [j]
    ensures x in Nodes(Nine(n, d, j))
  {
    var t := Nine(n, d, j);
    assert {n[0], n[1], n[2], d} <= Nodes(t.left) by {
      assert Nodes(t.left.right) == {n[2]} + Nodes(t.left.right.right);
      assert d in Nodes(t.left.right.right) && n[0] in Nodes(t.left.left);
    }
    assert {n[4], n[5], n[6], j} <= Nodes(t.right) by {
      assert Nodes(t.right.right) == {n[6]} + Nodes(t.right.right.right);
      assert j in Nodes(t.right.right.right) && n[4] in Nodes(t.right.left);
    }
    assert Nodes(t) == Nodes(t.left) + {n[3]} + Nodes(t.right);
  }

  /**
   * Ten insertions after which six keys are not found any more, though nothing was ever removed: in key
   * order the nodes 3, 4 and from 6 on. Up to the ninth insertion every key was found.
   */
  lemma TenInsertions(a: seq<TreeNode>, i: nat)
    requires |a| == 10 && Rising(a) && 3 <= i < 10 && i != 5
    ensures var nine := RunMem(false, Order(a)[..9]);
      Passable(false, Order(a)[..9]) && nine.Ended?
      && (i != 4 ==> Find(nine.value, a[i].key).Some? && Find(nine.value, a[i].key).value.node != null)
    ensures var ten := RunMem(false, Order(a));
      ten.Ended? && ten == InsertMem(false, RunMem(false, Order(a)[..9]).value, a[4]) && Find(ten.value, a[i].key).Some? && Find(ten.value, a[i].key).value.node == null
  {
    hide RunMem, Passable, Grown, After, InsertMem, Nine, Find, TreeOf, NoneTwice, Rising, Between, Above;
    var n, d, j, e := [a[0], a[1], a[2], a[5], a[6], a[7], a[8]], a[3], a[9], a[4];
    var nine := n + [d] + [j];
    assert Order(a)[..9] == nine && Order(a) == nine + [e];
    Ranks(a);
    OrderApart(a);
    Beyond(a, i);
    NoneTwiceLess(nine, e);
    NinthRuns(n, d, j);
    TenthRun(n, d, j, e);
    if i != 4 {
      assert a[i] in nine;
      InNine(n, d, j, a[i]);
      FoundIn(Nine(n, d, j), RunMem(false, nine).value, a[i]);
    }
    NotFound(RunMem(false, nine + [e]).value, n[1], n[3], n[2], d, e, a[i].key);
  }

  lemma FoundIn(t: Shape, h: Image, n: TreeNode)
    requires TreeOf(false, h.root, h.mem, t) && n in Nodes(t)
    ensures Find(h, n.key).Some? && Find(h, n.key).value.node != null
  {
    FindRefines(false, h, t, n.key);
    LocateExact(t, n.key);
    SeparateInorder(t);
  }

  lemma FirstNine(a: seq<TreeNode>)
    requires |a| == 10 && AllDistinct(Order(a))
    ensures AllDistinct(Order(a)[..9])
    ensures Those(Order(a)[..9]) <= Those(Order(a)) && ListsOf(Those(Order(a)[..9])) <= ListsOf(Those(Order(a)))
    ensures a[4] in Those(Order(a)) && a[4] !in Those(Order(a)[..9])
  {
    var ns := Order(a);
    assert ns[9] == a[4];
    assert forall i :: 0 <= i < 9 ==> ns[..9][i] == ns[i];
  }

  lemma StillLoose(ns: seq<TreeNode>, ops: seq<(string, Value)>, k: nat)
    requires k < |ns| && Loose(ns, 0, ops)
    ensures Loose(ns[..k], 0, ops[..k]) && ns[k].left == null && ns[k].right == null
  {
  }

  // the ten insertions on the heap, and the search for the key of node `i` before and after the tenth
  method LoseKeys(a: seq<TreeNode>, ghost ops: seq<(string, Value)>, i: nat) returns (before: TreeNode?, after: TreeNode?)
    requires |a| == 10 && Rising(a) && AllDistinct(Order(a)) && Loose(Order(a), 0, ops) && 3 <= i < 10 && i != 5
    modifies Those(Order(a)), ListsOf(Those(Order(a)))
    ensures i != 4 ==> before != null
    ensures after == null
  {
    FirstNine(a);
    TenInsertions(a, i);
    PassableSteady(false, Order(a)[..9]);
    StillLoose(Order(a), ops, 9);
    before, after := InsertAndFind(Order(a)[..9], a[4], ops[..9], a[i].key);
  }

  // a run of insertions, one more on whatever memory there is then, and a search before and after that
  method InsertAndFind(ns: seq<TreeNode>, node: TreeNode, ghost ops: seq<(string, Value)>, key: string)
    returns (before: TreeNode?, after: TreeNode?)
    requires AllDistinct(ns) && Loose(ns, 0, ops) && Steady(false, ns)
    requires node !in Those(ns) && node.left == null && node.right == null
    requires RunMem(false, ns).Ended? && InsertMem(false, RunMem(false, ns).value, node).Ended?
    requires Find(InsertMem(false, RunMem(false, ns).value, node).value, key).Some?
    modifies Those(ns), ListsOf(Those(ns)), node
    ensures var h := RunMem(false, ns).value;
      && Find(h, key).Some? && before == Find(h, key).value.node
      && after == Find(InsertMem(false, h, node).value, key).value.node
  {
    hide RunMem, Steady, Passable, Find, InsertMem, Grown, Replay, TreeOf, SelfContained;
    var d := InsertAll(ns, ops);
    before, after := FindBeforeAndAfter(d, node, key);
  }

  // a search, an insertion on whatever memory there is, and the same search again
  method FindBeforeAndAfter(d: Dict, node: TreeNode, key: string) returns (before: TreeNode?, after: TreeNode?)
    requires d.Valid() && !d.repaired && node !in d.mem && node.left == null && node.right == null
    requires InsertMem(false, d.Now(), node).Ended? && Find(InsertMem(false, d.Now(), node).value, key).Some?
    modifies d, d.mem.Keys, node
    ensures Find(old(d.Now()), key).Some? && before == Find(old(d.Now()), key).value.node
    ensures after == Find(InsertMem(false, old(d.Now()), node).value, key).value.node
  {
    hide InsertMem, Find, SelfContained, TreeOf;
    FindMeansFor(d, key);
    before := d.FindTreeNode(key);
    var linked, parent := d.InsertIntoTree(node);
    after := d.FindTreeNode(key);
  }

  lemma FindMeansFor(d: Dict, key: string)
    requires d.Valid()
    ensures Find(d.Now(), key).Some?
  {
    d.FindMeans(key);
  }
}
