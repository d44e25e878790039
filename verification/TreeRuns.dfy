/**
 * Runs of insertions into an empty tree (common/src/tree.c): when they do what runs on shapes do, when
 * all parent links stay truthful, and when the tree stays a search tree at all.
 */
module TreeRuns {
  import opened TreeShape
  import opened TreeLinks
  import opened TreeFixup
  import opened TreeProgram
  import opened TreeRefinement
  import opened TreeOrder
  import opened TreeReads

  // ---------- as on shapes ----------

  /** Along the run the links that each fixup reads are truthful when it does. */
  ghost predicate Passable(repaired: bool, ns: seq<TreeNode>) {
    ns == [] ||
    var r, n := ns[..|ns| - 1], ns[|ns| - 1];
    && Passable(repaired, r) && n !in r
    && RunMem(repaired, r).Ended?
    && (repaired || PathTruthful(RunMem(repaired, r).value.mem, Grown(r), n.key))
  }

  /** `r` is a memory that holds the tree after the run. */
  ghost predicate RanTo(repaired: bool, ns: seq<TreeNode>, r: Ending<Image>) {
    r.Ended? && TreeOf(repaired, r.value.root, r.value.mem, Grown(ns)) && forall n <- r.value.mem.Keys :: n in ns
  }

  lemma RunNext(repaired: bool, ns: seq<TreeNode>, n: TreeNode, h: Image)
    requires RanTo(repaired, ns, Ended(h)) && n !in ns
    requires repaired || PathTruthful(h.mem, Grown(ns), n.key)
    ensures RanTo(repaired, ns + [n], InsertMem(repaired, h, n))
  {
    hide InsertMem, With, Spares, LinksTrue, SameParents, PathTruthful, TreeOf, Locate;
    InsertRefines(repaired, h, Grown(ns), n);
    assert (ns + [n])[..|ns|] == ns;
  }

  lemma RanNowhere(repaired: bool)
    ensures RanTo(repaired, [], RunMem(repaired, []))
  {
  }

  lemma {:induction false} RunRefines(repaired: bool, ns: seq<TreeNode>)
    requires Passable(repaired, ns)
    ensures RanTo(repaired, ns, RunMem(repaired, ns))
  {
    hide InsertMem, PathTruthful, TreeOf, Grown;
    if ns == [] {
      RanNowhere(repaired);
    } else {
      var r, n := ns[..|ns| - 1], ns[|ns| - 1];
      RunRefines(repaired, r);
      RunNext(repaired, r, n, RunMem(repaired, r).value);
      assert r + [n] == ns;
    }
  }

  lemma RunMemNext(repaired: bool, ns: seq<TreeNode>, i: nat)
    requires i < |ns| && RunMem(repaired, ns[..i]).Ended?
    ensures RunMem(repaired, ns[..i + 1]) == InsertMem(repaired, RunMem(repaired, ns[..i]).value, ns[i])
  {
    hide InsertMem;
    assert ns[..i + 1][..i] == ns[..i];
  }

  ghost predicate AllTrue(r: Ending<Image>) {
    r.Ended? && LinksTrue(r.value.root, r.value.mem)
  }

  /** As written, a run keeps all links truthful exactly as long as no rotation moves a non-empty subtree. */
  lemma {:induction false} HarmlessRun(ns: seq<TreeNode>)
    requires forall i, j :: 0 <= i < j < |ns| ==> ns[i] != ns[j]
    requires ns != [] ==> Harmless(ns[..|ns| - 1])
    ensures Passable(false, ns) && RunMem(false, ns).Ended?
    ensures AllTrue(RunMem(false, ns)) <==> Harmless(ns)
  {
    if ns != [] {
      var r, n := ns[..|ns| - 1], ns[|ns| - 1];
      if r != [] {
        HarmlessPrefix(r, |r| - 1);
      }
      HarmlessRun(r);
      HarmlessNext(r, n);
      assert r + [n] == ns;
    }
  }

  /** All links are truthful after every insertion of a run exactly if none of its rotations moves a non-empty subtree. */
  lemma {:induction false} HarmlessAlways(ns: seq<TreeNode>)
    requires forall i, j :: 0 <= i < j < |ns| ==> ns[i] != ns[j]
    ensures (forall i :: 0 <= i <= |ns| ==> AllTrue(RunMem(false, ns[..i]))) <==> Harmless(ns)
  {
    hide RunMem, LinksTrue, Spares, Grown;
    assert ns[..|ns|] == ns;
    if ns == [] {
      HarmlessRun(ns);
      assert forall i :: 0 <= i <= |ns| ==> ns[..i] == ns;
    } else {
      var r := ns[..|ns| - 1];
      HarmlessAlways(r);
      assert forall i :: 0 <= i <= |r| ==> r[..i] == ns[..i];
      if Harmless(r) {
        HarmlessRun(ns);
      }
    }
  }

  lemma HarmlessNext(ns: seq<TreeNode>, n: TreeNode)
    requires Passable(false, ns) && n !in ns && Harmless(ns) && AllTrue(RunMem(false, ns))
    ensures Passable(false, ns + [n]) && RunMem(false, ns + [n]).Ended?
    ensures AllTrue(RunMem(false, ns + [n])) <==> Harmless(ns + [n])
  {
    hide InsertMem, With, Spares, LinksTrue, SameParents, PathTruthful, TreeOf;
    var h := RunMem(false, ns).value;
    RunRefines(false, ns);
    PathsTrue(false, h, Grown(ns), n.key);
    InsertRefines(false, h, Grown(ns), n);
    assert (ns + [n])[..|ns|] == ns;
    RunMemNext(false, ns + [n], |ns|);
    assert (ns + [n])[..|ns| + 1] == ns + [n];
  }

  // ---------- a search tree at all ----------

  /** All rotations of a run of insertions pass the test. */
  predicate RunTurns(test: Test, repaired: bool, ns: seq<TreeNode>) {
    ns == [] ||
    var r, n := ns[..|ns| - 1], ns[|ns| - 1];
    && RunTurns(test, repaired, r)
    && (RunMem(repaired, r).Ended? ==> InsertTurns(test, repaired, RunMem(repaired, r).value, n))
  }

  /** The run ends, follows no null pointer, and rotates at nodes only that name their parents. */
  predicate Steady(repaired: bool, ns: seq<TreeNode>) {
    RunMem(repaired, ns).Ended? && RunTurns(AtNamed(), repaired, ns)
  }

  /** What holds along such a run at its position `i`. */
  lemma {:induction false} SteadyAt(repaired: bool, ns: seq<TreeNode>, i: nat)
    requires Steady(repaired, ns) && i < |ns|
    ensures RunMem(repaired, ns[..i]).Ended? && InsertsSteady(repaired, RunMem(repaired, ns[..i]).value, ns[i])
    decreases |ns|
  {
    hide InsertMem, InsertTurns;
    if i < |ns| - 1 {
      SteadyAt(repaired, ns[..|ns| - 1], i);
      assert ns[..|ns| - 1][..i] == ns[..i];
    }
  }

  /** The nodes in memory are among those inserted, one for each of their keys. */
  ghost predicate Gathers(h: Image, ns: seq<TreeNode>) {
    && (forall n <- h.mem.Keys :: n in ns)
    && forall i :: 0 <= i < |ns| ==> exists n <- h.mem.Keys :: n.key == ns[i].key
  }

  lemma GathersNext(h: Image, ns: seq<TreeNode>, n: TreeNode, h': Image)
    requires InOrder(h) && Gathers(h, ns) && h'.mem.Keys == NodesWith(h, n)
    ensures Gathers(h', ns + [n])
  {
    hide InOrder, Find;
    FindExact(h, n.key);
    var p := Find(h, n.key).value.node;
    var m: TreeNode := if p == null then n else p;
    assert m in h'.mem.Keys && m.key == n.key;
    forall i | 0 <= i < |ns + [n]|
      ensures exists k <- h'.mem.Keys :: k.key == (ns + [n])[i].key
    {
      if i < |ns| {
        var k :| k in h.mem.Keys && k.key == ns[i].key;
        assert k in h'.mem.Keys;
      }
    }
  }

  /**
   * A run of insertions leaves a tree behind after every rotation exactly if it rotates at nodes only
   * that name their parents; then it ends, if it does, with a search tree of exactly the keys inserted.
   */
  lemma {:induction false} RunKeeps(repaired: bool, ns: seq<TreeNode>)
    requires forall i, j :: 0 <= i < j < |ns| ==> ns[i] != ns[j]
    ensures RunTurns(LeavesTree(), repaired, ns) <==> RunTurns(AtNamed(), repaired, ns)
    ensures Steady(repaired, ns) ==> InOrder(RunMem(repaired, ns).value) && Gathers(RunMem(repaired, ns).value, ns)
  {
    hide InOrder, InsertMem, InsertTurns, Gathers;
    if ns == [] {
      EmptyInOrder();
    } else {
      var r, n := ns[..|ns| - 1], ns[|ns| - 1];
      RunKeeps(repaired, r);
      if Steady(repaired, r) {
        var h := RunMem(repaired, r).value;
        NewToRun(h, r, n);
        InsertKeeps(repaired, h, n);
        if Steady(repaired, ns) {
          GathersNext(h, r, n, RunMem(repaired, ns).value);
          assert r + [n] == ns;
        }
      }
    }
  }

  lemma NewToRun(h: Image, r: seq<TreeNode>, n: TreeNode)
    requires Gathers(h, r) && n !in r
    ensures n !in h.mem
  {
  }

  lemma EmptyInOrder()
    ensures InOrder(Image(null, map[])) && Gathers(Image(null, map[]), [])
  {
  }

  /** So each search after the run finds a node with the key, if one was inserted. */
  lemma RunFinds(repaired: bool, ns: seq<TreeNode>, key: string)
    requires forall i, j :: 0 <= i < j < |ns| ==> ns[i] != ns[j]
    requires Steady(repaired, ns)
    ensures var f := Find(RunMem(repaired, ns).value, key);
      && f.Some? && (f.value.node != null <==> exists i :: 0 <= i < |ns| && ns[i].key == key)
      && (f.value.node != null ==> f.value.node in ns && f.value.node.key == key)
  {
    hide InOrder, RunMem, RunTurns, Find;
    RunKeeps(repaired, ns);
    FindExact(RunMem(repaired, ns).value, key);
  }

  lemma {:induction false} PassableSteady(repaired: bool, ns: seq<TreeNode>)
    requires Passable(repaired, ns)
    ensures Steady(repaired, ns)
  {
    hide InsertTurns, InsertMem, WholePath, Grown, TreeOf;
    RunRefines(repaired, ns);
    if ns != [] {
      var r, n := ns[..|ns| - 1], ns[|ns| - 1];
      PassableSteady(repaired, r);
      RunRefines(repaired, r);
      InsertRefines(repaired, RunMem(repaired, r).value, Grown(r), n);
    }
  }
}
