/**
 * Runs of insertions into the dictionary as written, without the repair.
 */
module DictionaryRuns {
  import opened Rings
  import opened TreeShape
  import opened TreeLinks
  import opened TreeFixup
  import opened TreeProgram
  import opened TreeOrder
  import opened TreeRuns
  import opened Dictionary

  predicate AllDistinct(ns: seq<TreeNode>) {
    forall i, j :: 0 <= i < j < |ns| ==> ns[i] != ns[j] && ns[i].list != ns[j].list
  }

  /** The nodes from position `i` on are in no tree yet and hold the values to be written. */
  ghost predicate Loose(ns: seq<TreeNode>, i: nat, ops: seq<(string, Value)>)
    reads ns
  {
    && |ops| == |ns|
    && forall j :: i <= j < |ns| ==> ns[j].left == null && ns[j].right == null && ns[j].key == ops[j].0 && ns[j].value == ops[j].1
  }

  ghost function Those(ns: seq<TreeNode>): set<TreeNode> {
    set n | n in ns
  }

  /** The ring of a dictionary whose nodes are among `nodes`. */
  lemma InUse(ring: seq<Link<TreeNode?>>, keys: set<TreeNode>, nodes: set<TreeNode>, node: TreeNode)
    requires OnRing(ring, keys) && keys <= nodes && node !in nodes && forall n <- nodes :: n.list != node.list
    ensures node.list !in ring && forall l :: l in ring ==> l in ListsOf(nodes)
  {
    assert forall l :: l in ring ==> l in Elements(ring);
  }

  /** Node `i` is none of those before it, nor is any node behind it. */
  ghost predicate Apart(ns: seq<TreeNode>, i: nat)
    requires i < |ns|
  {
    var some := Those(ns[..i]);
    && some <= Those(ns) && ListsOf(some) <= ListsOf(Those(ns)) && ns[i].list in ListsOf(Those(ns))
    && some + {ns[i]} == Those(ns[..i + 1])
    && ns[i] !in some && (forall j :: i < j < |ns| ==> ns[j] !in some && ns[j] != ns[i])
    && (forall n <- some :: n.list != ns[i].list)
  }

  lemma DistinctApart(ns: seq<TreeNode>, i: nat)
    requires AllDistinct(ns) && i < |ns|
    ensures Apart(ns, i)
  {
  }

  /** A dictionary as written with this map and this memory. */
  ghost predicate Holding(d: Dict, nodes: set<TreeNode>, m: map<string, Value>, h: Ending<Image>)
    reads d, d.mem.Keys, d.ring
  {
    d.Valid() && !d.repaired && d.mem.Keys <= nodes && d.Contents() == m && Ended(d.Now()) == h
  }

  // one insert_tree_node of a run
  method InsertOne(d: Dict, node: TreeNode, ghost nodes: set<TreeNode>, ghost m: map<string, Value>, ghost h: Image)
    requires Holding(d, nodes, m, Ended(h)) && InsertsSteady(false, h, node)
    requires node !in nodes && node.left == null && node.right == null && forall n <- nodes :: n.list != node.list
    modifies d, nodes, node, ListsOf(nodes), node.list
    ensures Holding(d, nodes + {node}, m[node.key := old(node.value)], InsertMem(false, h, node))
  {
    hide InsertMem, With, InsertsSteady, TreeOf, LinksTrue, SelfContained, Spares;
    InUse(d.ring, d.mem.Keys, nodes, node);
    d.InsertTreeNode(node);
  }

  // the same, seen from all nodes
  method InsertNext(d: Dict, ns: seq<TreeNode>, i: nat, ghost ops: seq<(string, Value)>, ghost m: map<string, Value>, ghost h: Image)
    requires i < |ns| && Apart(ns, i) && Loose(ns, i, ops)
    requires Holding(d, Those(ns[..i]), m, Ended(h)) && InsertsSteady(false, h, ns[i])
    modifies d, Those(ns), ListsOf(Those(ns))
    ensures Holding(d, Those(ns[..i + 1]), m[ops[i].0 := ops[i].1], InsertMem(false, h, ns[i]))
    ensures Loose(ns, i + 1, ops)
  {
    hide InsertMem, InsertsSteady, TreeOf, SelfContained;
    InsertOne(d, ns[i], Those(ns[..i]), m, h);
  }

  /** The first `i` nodes are inserted. */
  ghost predicate Midway(d: Dict, ns: seq<TreeNode>, i: nat, ops: seq<(string, Value)>)
    requires i <= |ns|
    reads d, d.mem.Keys, d.ring, ns
  {
    Loose(ns, i, ops) && Holding(d, Those(ns[..i]), Replay(ops[..i]), RunMem(false, ns[..i]))
  }

  // the body of the loop
  method InsertStep(d: Dict, ns: seq<TreeNode>, i: nat, ghost ops: seq<(string, Value)>)
    requires AllDistinct(ns) && i < |ns| && Midway(d, ns, i, ops) && Steady(false, ns)
    modifies d, Those(ns), ListsOf(Those(ns))
    ensures Midway(d, ns, i + 1, ops)
  {
    hide InsertMem, RunMem, InsertsSteady, TreeOf, SelfContained, Steady;
    assert ops[..i + 1][..i] == ops[..i];
    assert ns[..i + 1][..i] == ns[..i];
    SteadyAt(false, ns, i);
    RunMemNext(false, ns, i);
    DistinctApart(ns, i);
    InsertNext(d, ns, i, ops, Replay(ops[..i]), RunMem(false, ns[..i]).value);
  }

  method InsertEach(d: Dict, ns: seq<TreeNode>, ghost ops: seq<(string, Value)>)
    requires AllDistinct(ns) && Steady(false, ns) && Midway(d, ns, 0, ops)
    modifies d, Those(ns), ListsOf(Those(ns))
    ensures Midway(d, ns, |ns|, ops)
  {
    hide Steady, RunMem;
    for i := 0 to |ns|
      invariant Midway(d, ns, i, ops)
    {
      InsertStep(d, ns, i, ops);
    }
  }

  /**
   * As written, a run of insertions works, and goes on working past stale links, as long as it follows no
   * null pointer and every rotation is at a node that names its parent.
   */
  method InsertAll(ns: seq<TreeNode>, ghost ops: seq<(string, Value)>) returns (d: Dict)
    requires AllDistinct(ns) && Loose(ns, 0, ops) && Steady(false, ns)
    modifies Those(ns), ListsOf(Those(ns))
    ensures d.Valid() && !d.repaired && d.Contents() == Replay(ops)
    ensures Ended(d.Now()) == RunMem(false, ns) && d.mem.Keys <= Those(ns) && fresh(d)
    ensures Passable(false, ns) ==> d.shape == Grown(ns)
  {
    d := new Dict(false);
    assert ns[..0] == [] && ops[..0] == [];
    InsertEach(d, ns, ops);
    assert ns[..|ns|] == ns && ops[..|ns|] == ops;
    ShapeOfRun(d, ns);
  }

  lemma ShapeOfRun(d: Dict, ns: seq<TreeNode>)
    requires d.Valid() && !d.repaired && Ended(d.Now()) == RunMem(false, ns)
    ensures Passable(false, ns) ==> d.shape == Grown(ns)
  {
    hide RunMem, Passable;
    if Passable(false, ns) {
      RunRefines(false, ns);
      SortedSeparate(d.shape);
      SortedSeparate(Grown(ns));
      HoldsMeans(d.Now(), d.shape);
      HoldsMeans(d.Now(), Grown(ns));
    }
  }

  /** A run without a rotation that moves a non-empty subtree, or one that has it in its last insertion only. */
  predicate HarmlessSoFar(ns: seq<TreeNode>) {
    ns == [] || Harmless(ns[..|ns| - 1])
  }

  /**
   * All links stay truthful, all the time, exactly as long as no rotation moves a non-empty subtree,
   * which can be told from the nodes beforehand; the first insertion that has such a rotation still
   * works, and after it, and only then, there is a stale link.
   */
  method InsertHarmless(ns: seq<TreeNode>, ghost ops: seq<(string, Value)>) returns (d: Dict)
    requires AllDistinct(ns) && Loose(ns, 0, ops) && (Steady(false, ns) || HarmlessSoFar(ns))
    modifies Those(ns), ListsOf(Those(ns))
    ensures d.Valid() && !d.repaired && d.Contents() == Replay(ops)
    ensures (forall i :: 0 <= i <= |ns| ==> AllTrue(RunMem(false, ns[..i]))) <==> Harmless(ns)
    ensures HarmlessSoFar(ns) ==> d.shape == Grown(ns) && (LinksTrue(d.root, d.mem) <==> Harmless(ns))
  {
    hide Harmless, RunMem, LinksTrue, Passable, RunTurns;
    HarmlessAlways(ns);
    if HarmlessSoFar(ns) {
      HarmlessRun(ns);
      PassableSteady(false, ns);
    }
    d := InsertAll(ns, ops);
  }
}
