/**
 * The invariant of the loop in `fix_after_insert` (common/src/tree.c), and that each branch of
 * its body keeps it.
 */
module TreeFixup {
  import opened CString
  import opened TreeShape
  import opened TreeMemory
  import opened TreeRotation
  import opened TreeLinks

  /** At the position of `c`, below which `t` hangs; if `known`, `ok` tells whether all parent links are truthful. */
  ghost predicate Standing(repaired: bool, known: bool, ok: bool, root: TreeNode?, m: Mem, c: Ctx, t: Shape) {
    && FixState(root, m, c, t) && BlackRoot(c) && CtxNodes(c) + Nodes(t) == m.Keys
    && (known ==> LinkStatus(ok, root, m, c, t)) && (repaired ==> known && ok)
  }

  lemma ToParent(root: TreeNode?, m: Mem, c: Ctx, t: Shape)
    requires FixState(root, m, c, t) && !c.Top?
    ensures FixState(root, m, c.up, Around(c, t)) && CtxNodes(c.up) + Nodes(Around(c, t)) == CtxNodes(c) + Nodes(t)
  {
    OneUpState(root, m, c, t);
    OneUp(root, m, c, t);
  }

  lemma ToGrandparent(root: TreeNode?, m: Mem, c: Ctx, t: Shape)
    requires FixState(root, m, c, t) && !c.Top? && !c.up.Top?
    ensures var G := Around(c.up, Around(c, t));
      FixState(root, m, c.up.up, G) && CtxNodes(c.up.up) + Nodes(G) == CtxNodes(c) + Nodes(t)
  {
    ToParent(root, m, c, t);
    ToParent(root, m, c.up, Around(c, t));
  }

  lemma RightToGrandparent(repaired: bool, root: TreeNode?, m: Mem, r1: TreeNode?, m1: Mem, c: Ctx, t: Shape)
    requires FixState(root, m, c, t) && c.InRight? && !c.up.Top? && CtxNodes(c) + Nodes(t) <= m.Keys
    requires RightRotation(repaired, root, m, r1, m1, c.node)
    ensures var G := Around(c.up, RotatedRight(Around(c, t)));
      FixState(r1, m1, c.up.up, G) && CtxNodes(c.up.up) + Nodes(G) == CtxNodes(c) + Nodes(t)
  {
    ToParent(root, m, c, t);
    RightRotatedState(repaired, root, m, r1, m1, c.up, Around(c, t));
    RotatedSeparate(c.up, Around(c, t));
    ToParent(r1, m1, c.up, RotatedRight(Around(c, t)));
  }

  lemma RightThenLeftDone(repaired: bool, known: bool, ok: bool, root: TreeNode?, m: Mem, r1: TreeNode?, m1: Mem, r2: TreeNode?, m2: Mem, c: Ctx, t: Shape)
    requires FixState(root, m, c, t) && BlackRoot(c) && Unbalanced(c) && !IsRed(Uncle(c)) && c.InRight? && c.up.InLeft?
    requires CtxNodes(c) + Nodes(t) == m.Keys && (known ==> LinkStatus(ok, root, m, c, t)) && (repaired ==> known && ok)
    requires RightRotation(repaired, root, m, r1, m1, c.node) && LeftRotation(repaired, r1, m1, r2, m2, c.up.node)
    ensures m2.Keys == m.Keys && Standing(repaired, known, ok && (repaired || MovesEmpty(c, t)), r2, m2, Step(c, t).0, Step(c, t).1)
  {
    RightThenLeftFix(repaired, root, m, r1, m1, r2, m2, c, t);
    if known { RightThenLeftStatus(repaired, ok, root, m, r1, m1, r2, m2, c, t); }
    StepClimbs(c, t);
    StepSeparate(c, t);
  }

  lemma LeftOnceDone(repaired: bool, known: bool, ok: bool, root: TreeNode?, m: Mem, root': TreeNode?, m': Mem, c: Ctx, t: Shape)
    requires FixState(root, m, c, t) && BlackRoot(c) && Unbalanced(c) && !IsRed(Uncle(c)) && c.InLeft? && c.up.InLeft?
    requires CtxNodes(c) + Nodes(t) == m.Keys && (known ==> LinkStatus(ok, root, m, c, t)) && (repaired ==> known && ok)
    requires LeftRotation(repaired, root, m, root', m', c.up.node)
    ensures m'.Keys == m.Keys && Standing(repaired, known, ok && (repaired || MovesEmpty(c, t)), root', m', Step(c, t).0, Step(c, t).1)
  {
    LeftOnceFix(repaired, root, m, root', m', c, t);
    if known { LeftOnceStatus(repaired, ok, root, m, root', m', c, t); }
    StepClimbs(c, t);
    StepSeparate(c, t);
  }

  lemma LeftToGrandparent(repaired: bool, root: TreeNode?, m: Mem, r1: TreeNode?, m1: Mem, c: Ctx, t: Shape)
    requires FixState(root, m, c, t) && c.InLeft? && !c.up.Top? && CtxNodes(c) + Nodes(t) <= m.Keys
    requires LeftRotation(repaired, root, m, r1, m1, c.node)
    ensures var G := Around(c.up, RotatedLeft(Around(c, t)));
      FixState(r1, m1, c.up.up, G) && CtxNodes(c.up.up) + Nodes(G) == CtxNodes(c) + Nodes(t)
  {
    ToParent(root, m, c, t);
    LeftRotatedState(repaired, root, m, r1, m1, c.up, Around(c, t));
    RotatedSeparate(c.up, Around(c, t));
    ToParent(r1, m1, c.up, RotatedLeft(Around(c, t)));
  }

  lemma LeftThenRightDone(repaired: bool, known: bool, ok: bool, root: TreeNode?, m: Mem, r1: TreeNode?, m1: Mem, r2: TreeNode?, m2: Mem, c: Ctx, t: Shape)
    requires FixState(root, m, c, t) && BlackRoot(c) && Unbalanced(c) && !IsRed(Uncle(c)) && c.InLeft? && c.up.InRight?
    requires CtxNodes(c) + Nodes(t) == m.Keys && (known ==> LinkStatus(ok, root, m, c, t)) && (repaired ==> known && ok)
    requires LeftRotation(repaired, root, m, r1, m1, c.node) && RightRotation(repaired, r1, m1, r2, m2, c.up.node)
    ensures m2.Keys == m.Keys && Standing(repaired, known, ok && (repaired || MovesEmpty(c, t)), r2, m2, Step(c, t).0, Step(c, t).1)
  {
    LeftThenRightFix(repaired, root, m, r1, m1, r2, m2, c, t);
    if known { LeftThenRightStatus(repaired, ok, root, m, r1, m1, r2, m2, c, t); }
    StepClimbs(c, t);
    StepSeparate(c, t);
  }

  lemma RightOnceDone(repaired: bool, known: bool, ok: bool, root: TreeNode?, m: Mem, root': TreeNode?, m': Mem, c: Ctx, t: Shape)
    requires FixState(root, m, c, t) && BlackRoot(c) && Unbalanced(c) && !IsRed(Uncle(c)) && c.InRight? && c.up.InRight?
    requires CtxNodes(c) + Nodes(t) == m.Keys && (known ==> LinkStatus(ok, root, m, c, t)) && (repaired ==> known && ok)
    requires RightRotation(repaired, root, m, root', m', c.up.node)
    ensures m'.Keys == m.Keys && Standing(repaired, known, ok && (repaired || MovesEmpty(c, t)), root', m', Step(c, t).0, Step(c, t).1)
  {
    RightOnceFix(repaired, root, m, root', m', c, t);
    if known { RightOnceStatus(repaired, ok, root, m, root', m', c, t); }
    StepClimbs(c, t);
    StepSeparate(c, t);
  }

  lemma RecolourDone(repaired: bool, known: bool, ok: bool, root: TreeNode?, m: Mem, c: Ctx, t: Shape)
    requires Standing(repaired, known, ok, root, m, c, t) && Unbalanced(c) && IsRed(Uncle(c))
    ensures MovesEmpty(c, t) && !c.up.Top? && Recoloured(m, c).Keys == m.Keys
    ensures Standing(repaired, known, ok, root, Recoloured(m, c), Step(c, t).0, Step(c, t).1)
  {
    FamilyKnown(c, t);
    RecolouredFix(root, m, c, t);
    if known { RecolouredStatus(ok, root, m, c, t); }
    RecolouredPointers(m, c);
    StepClimbs(c, t);
    StepSeparate(c, t);
  }

  /** The loop guard reads what the shape says. */
  lemma GuardSees(root: TreeNode?, m: Mem, c: Ctx, t: Shape)
    requires FixState(root, m, c, t) && CtxNodes(c) + Nodes(t) == m.Keys
    ensures t.node in m && Get(m, t.node).parent == ParentPtr(c)
    ensures !c.Top? ==> c.node in m && Get(m, c.node).color == c.color
  {
    PtrInside(t);
  }

  lemma StepNode(c: Ctx, t: Shape)
    requires t.Fork? && Unbalanced(c) && BlackRoot(c)
    ensures !c.up.Top? && Step(c, t).1.node == if IsRed(Uncle(c)) then c.up.node else t.node
  {
  }

  lemma FixUnfolds(c: Ctx, t: Shape)
    requires t.Fork? && BlackRoot(c)
    ensures !Unbalanced(c) ==> Fix(c, t) == Blacken(Plug(c, t)) && FixMovesEmpty(c, t)
    ensures Unbalanced(c) ==>
      var (c', t') := Step(c, t);
      && Depth(c') < Depth(c) && BlackRoot(c') && Fix(c, t) == Fix(c', t')
      && (FixMovesEmpty(c, t) <==> MovesEmpty(c, t) && FixMovesEmpty(c', t'))
  {
    if Unbalanced(c) {
      StepClimbs(c, t);
    }
  }

  lemma FamilyKnown(c: Ctx, t: Shape)
    requires Unbalanced(c) && BlackRoot(c) && SeparateAt(c, t)
    ensures !c.up.Top? && c.node != c.up.node && Ptr(Uncle(c)) != c.up.node
    ensures !c.up.Top? && c.node in CtxNodes(c) && c.up.node in CtxNodes(c)
    ensures Uncle(c).Fork? ==> Uncle(c).node in CtxNodes(c)
  {
    PtrInside(Uncle(c));
    assert SeparateCtx(c.up);
  }

  lemma {:induction false} PlugAt(root: TreeNode?, m: Mem, c: Ctx, t: Shape)
    requires At(root, m, c, t) && SeparateAt(c, t)
    ensures At(root, m, Top, Plug(c, t)) && SeparateAt(Top, Plug(c, t))
  {
    if !c.Top? {
      OneUp(root, m, c, t);
      PlugAt(root, m, c.up, Around(c, t));
    }
  }

  /** The last line of the fixup: the root becomes black, no pointer changes. */
  lemma Blackened(known: bool, ok: bool, root: TreeNode?, m: Mem, c: Ctx, t: Shape)
    requires FixState(root, m, c, t) && CtxNodes(c) + Nodes(t) == m.Keys && (known ==> LinkStatus(ok, root, m, c, t))
    ensures root != null && root in m && At(root, WithColor(m, root, Black), Top, Blacken(Plug(c, t)))
    ensures known ==> (LinksTrue(root, WithColor(m, root, Black)) <==> ok)
  {
    PlugAt(root, m, c, t);
    PlugSeparate(c, t);
    PlugFork(c, t);
    PtrInside(Plug(c, t));
    PaintedTree(root, m, Top, Plug(c, t), Black);
    PaintedPointers(m, root, Black);
    if known && !ok {
      var n, ch :| n in m.Keys && ch in m.Keys && n !in Way(c, t) && ch !in Way(c, t) && IsChild(m, n, ch) && Get(m, ch).parent != n;
      var m' := WithColor(m, root, Black);
      assert IsChild(m', n, ch) && Get(m', ch).parent != n;
    }
  }

  lemma {:induction false} PlugFork(c: Ctx, t: Shape)
    requires t.Fork?
    ensures Plug(c, t).Fork?
  {
    if !c.Top? {
      PlugFork(c.up, Around(c, t));
    }
  }

  // ---------- linking a new node ----------

  /** `node` has been hung, red, into the empty slot at the position of `c`. */
  ghost predicate Hung(root: TreeNode?, m: Mem, root': TreeNode?, m': Mem, c: Ctx, node: TreeNode) {
    && m'.Keys == m.Keys + {node} && node !in m
    && root' == (if c.Top? then node else root)
    && Get(m', node) == Cell(null, null, ParentPtr(c), Red)
    && (!c.Top? ==> Get(m', c.node) == if c.InLeft? then Get(m, c.node).(left := node) else Get(m, c.node).(right := node))
    && forall n <- m.Keys :: n != ParentPtr(c) ==> Get(m', n) == Get(m, n)
  }

  lemma HungAt(root: TreeNode?, m: Mem, root': TreeNode?, m': Mem, c: Ctx, node: TreeNode)
    requires At(root, m, c, Leaf) && SeparateAt(c, Leaf) && CtxNodes(c) == m.Keys
    requires Hung(root, m, root', m', c, node)
    ensures SeparateAt(c, Fork(Leaf, node, Red, Leaf)) && At(root', m', c, Fork(Leaf, node, Red, Leaf))
  {
    if !c.Top? {
      HungSlot(m, m', c, node);
    }
  }

  lemma HungState(root: TreeNode?, m: Mem, root': TreeNode?, m': Mem, c: Ctx, node: TreeNode)
    requires At(root, m, c, Leaf) && SeparateAt(c, Leaf) && CtxNodes(c) == m.Keys && PathLinks(m, c)
    requires Hung(root, m, root', m', c, node)
    ensures FixState(root', m', c, Fork(Leaf, node, Red, Leaf))
  {
    PathLinksFrame(m, m', c);
    HungAt(root, m, root', m', c, node);
  }

  lemma HungSlot(m: Mem, m': Mem, c: Ctx, node: TreeNode)
    requires !c.Top? && RepCtx(m, c, null) && SeparateCtx(c) && node !in CtxNodes(c) && SameOn(m, m', CtxNodes(c) - {c.node})
    requires Get(m', c.node) == if c.InLeft? then Get(m, c.node).(left := node) else Get(m, c.node).(right := node)
    ensures RepCtx(m', c, node)
  {
    RepFrame(m, m', if c.InLeft? then c.right else c.left);
    RepCtxFrame(m, m', c.up, c.node);
  }

  lemma HungLinks(root: TreeNode?, m: Mem, root': TreeNode?, m': Mem, c: Ctx, node: TreeNode)
    requires At(root, m, c, Leaf) && CtxNodes(c) == m.Keys && LinksTrue(root, m)
    requires Hung(root, m, root', m', c, node)
    requires forall n <- m.Keys :: Get(m, n).left != node && Get(m, n).right != node
    requires root == null || root in m
    ensures LinksTrue(root', m')
  {
    assert !c.Top? ==> c.node in m;
  }

  /** The children of the nodes of a tree are nodes of the tree. */
  lemma {:induction false} RepClosed(m: Mem, t: Shape)
    requires Rep(m, t)
    ensures forall n :: n in Nodes(t) ==>
      (Get(m, n).left == null || Get(m, n).left in Nodes(t)) && (Get(m, n).right == null || Get(m, n).right in Nodes(t))
  {
    if t.Fork? {
      RepClosed(m, t.left);
      RepClosed(m, t.right);
      PtrInside(t.left);
      PtrInside(t.right);
    }
  }

  predicate SameKey(n: TreeNode, k: TreeNode) {
    n.key == k.key
  }

  ghost predicate KeysUnique(ns: set<TreeNode>) {
    forall n <- ns, k <- ns {:trigger SameKey(n, k)} :: SameKey(n, k) ==> n == k
  }

  /** In a sorted tree no node occurs twice. */
  lemma SortedSeparate(t: Shape)
    requires Sorted(Inorder(t))
    ensures Separate(t)
  {
    SeparateInorder(t);
    SortedKeys(Inorder(t));
    DistinctSize(Inorder(t));
  }

  lemma SortedKeys(ns: seq<TreeNode>)
    requires Sorted(ns)
    ensures forall i, j :: 0 <= i < j < |ns| ==> ns[i].key != ns[j].key
  {
    forall i, j | 0 <= i < j < |ns|
      ensures ns[i].key != ns[j].key
    {
      StrCmpZero(ns[i].key, ns[j].key);
    }
  }

  lemma {:induction false} DistinctSize<X>(s: seq<X>)
    requires forall i, j :: 0 <= i < j < |s| ==> s[i] != s[j]
    ensures |set x | x in s| == |s|
  {
    if s != [] {
      var r := s[..|s| - 1];
      DistinctSize(r);
      assert (set x | x in s) == (set x | x in r) + {s[|s| - 1]};
    }
  }

  /** The whole tree, seen from any of its positions. */
  lemma {:induction false} ShapeAt(root: TreeNode?, m: Mem, c: Ctx, t: Shape, shape: Shape)
    requires Plug(c, t) == shape && At(root, m, Top, shape)
    ensures At(root, m, c, t)
  {
    if !c.Top? {
      ShapeAt(root, m, c.up, Around(c, t), shape);
      OneUp(root, m, c, t);
    }
  }

  /** The tree half of the dictionary's invariant, on the memory. */
  ghost predicate TreeOf(repaired: bool, root: TreeNode?, m: Mem, shape: Shape) {
    && At(root, m, Top, shape) && Nodes(shape) == m.Keys
    && Sorted(Inorder(shape)) && !IsRed(shape) && (repaired ==> LinksTrue(root, m))
  }

  /** What the search loop knows about the empty slot at which it ends. */
  ghost predicate FreeSlot(root: TreeNode?, m: Mem, c: Ctx) {
    && At(root, m, c, Leaf) && SeparateAt(c, Leaf) && CtxNodes(c) == m.Keys && BlackRoot(c)
    && (!c.Top? ==> c.node in m) && (root == null || root in m)
    && forall n <- m.Keys :: (Get(m, n).left == null || Get(m, n).left in m) && (Get(m, n).right == null || Get(m, n).right in m)
  }

  lemma SlotFound(repaired: bool, root: TreeNode?, m: Mem, shape: Shape, c: Ctx, key: string)
    requires TreeOf(repaired, root, m, shape) && Locate(shape, key) == (c, Leaf)
    ensures FreeSlot(root, m, c)
    ensures LinksTrue(root, m) ==> PathLinks(m, c)
  {
    DownPlug(Top, shape, key);
    SortedSeparate(shape);
    PlugSeparate(c, Leaf);
    ShapeAt(root, m, c, Leaf, shape);
    if LinksTrue(root, m) {
      LinksTruePath(root, m, c, Leaf);
    }
    RepClosed(m, shape);
    PtrInside(shape);
  }

  lemma SlotFilled(repaired: bool, root: TreeNode?, m: Mem, root': TreeNode?, m': Mem, c: Ctx, node: TreeNode)
    requires FreeSlot(root, m, c) && PathLinks(m, c) && (repaired ==> LinksTrue(root, m))
    requires Hung(root, m, root', m', c, node)
    ensures Standing(repaired, LinksTrue(root, m), true, root', m', c, Fork(Leaf, node, Red, Leaf))
  {
    HungState(root, m, root', m', c, node);
    if LinksTrue(root, m) {
      HungLinks(root, m, root', m', c, node);
    }
  }

  /** Inserting `node` rotates only around empty subtrees. */
  predicate InsertMovesEmpty(t: Shape, node: TreeNode)
    requires !IsRed(t)
  {
    DownPlug(Top, t, node.key);
    FixMovesEmpty(Locate(t, node.key).0, Fork(Leaf, node, Red, Leaf))
  }

  lemma InsertedTree(t: Shape, node: TreeNode)
    requires Sorted(Inorder(t)) && !IsRed(t) && Locate(t, node.key).1.Leaf?
    ensures var c := Locate(t, node.key).0;
      && BlackRoot(c) && Inserted(t, node) == Fix(c, Fork(Leaf, node, Red, Leaf))
      && (InsertMovesEmpty(t, node) <==> FixMovesEmpty(c, Fork(Leaf, node, Red, Leaf)))
    ensures Sorted(Inorder(Inserted(t, node))) && !IsRed(Inserted(t, node))
    ensures Nodes(Inserted(t, node)) == Nodes(t) + {node}
  {
    hide Down, Fix, FixMovesEmpty, Nodes, Before, Behind;
    InsertedOrder(t, node);
    DownPlug(Top, t, node.key);
    SeparateInorder(t);
    SeparateInorder(Inserted(t, node));
  }

  /** The tree after inserting `node`; a key that is there already changes nothing. */
  function With(t: Shape, node: TreeNode): (r: Shape)
    requires !IsRed(t) && Sorted(Inorder(t))
    ensures !IsRed(r) && Sorted(Inorder(r))
  {
    if Locate(t, node.key).1.Fork? then t
    else
      InsertedTree(t, node);
      Inserted(t, node)
  }

  /** Inserting `node`, whether its key is new or not, rotates around no non-empty subtree. */
  predicate Spares(t: Shape, node: TreeNode)
    requires !IsRed(t)
  {
    Locate(t, node.key).1.Fork? || InsertMovesEmpty(t, node)
  }

  /** The tree after inserting `ns` one after the other. */
  function Grown(ns: seq<TreeNode>): (t: Shape)
    ensures !IsRed(t) && Sorted(Inorder(t))
  {
    if ns == [] then Leaf else With(Grown(ns[..|ns| - 1]), ns[|ns| - 1])
  }

  /** None of these insertions rotates around a non-empty subtree. */
  predicate Harmless(ns: seq<TreeNode>) {
    ns == [] || (Harmless(ns[..|ns| - 1]) && Spares(Grown(ns[..|ns| - 1]), ns[|ns| - 1]))
  }

  lemma {:induction false} HarmlessPrefix(ns: seq<TreeNode>, i: nat)
    requires Harmless(ns) && i <= |ns|
    ensures Harmless(ns[..i])
    decreases |ns|
  {
    if i < |ns| {
      HarmlessPrefix(ns[..|ns| - 1], i);
      assert ns[..|ns| - 1][..i] == ns[..i];
    } else {
      assert ns[..i] == ns;
    }
  }
}
