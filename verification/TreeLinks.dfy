/**
 * Which parent links are truthful, and what the fixup of common/src/tree.c does to them.
 *
 * As written, an iteration leaves a stale parent link behind exactly when one of its rotations
 * moves a non-empty subtree, and no later iteration of the same insertion heals it. With the
 * two missing assignments every link stays truthful.
 */
module TreeLinks {
  import opened TreeShape
  import opened TreeMemory
  import opened TreeRotation

  predicate IsChild(m: Mem, n: TreeNode, ch: TreeNode?) {
    ch != null && (Get(m, n).left == ch || Get(m, n).right == ch)
  }

  /** The children of a node name it as their parent, and the root names none. */
  ghost predicate LinksTrue(root: TreeNode?, m: Mem) {
    && (forall n <- m.Keys {:trigger Get(m, n).left} {:trigger Get(m, n).right} ::
          Get(m, n).left == Get(m, n).right ==> Get(m, n).left == null)
    && (forall n <- m.Keys {:trigger Get(m, n).left} :: Get(m, n).left != null ==> Get(m, Get(m, n).left).parent == n)
    && (forall n <- m.Keys {:trigger Get(m, n).right} :: Get(m, n).right != null ==> Get(m, Get(m, n).right).parent == n)
    && (root != null ==> Get(m, root).parent == null)
  }

  /** Where all links are truthful, the links on any way up are. */
  lemma {:induction false} LinksTruePath(root: TreeNode?, m: Mem, c: Ctx, t: Shape)
    requires LinksTrue(root, m) && At(root, m, c, t) && CtxNodes(c) <= m.Keys
    ensures PathLinks(m, c)
    ensures t.Fork? ==> Get(m, t.node).parent == ParentPtr(c)
  {
    if !c.Top? {
      OneUp(root, m, c, t);
      LinksTruePath(root, m, c.up, Around(c, t));
    }
  }

  /** The surroundings of `node` as the rotations need them. */
  ghost predicate Placed(root: TreeNode?, m: Mem, node: TreeNode, child: TreeNode?, inner: TreeNode?) {
    var parent := Get(m, node).parent;
    && node in m && child != null && child in m && child != node && inner != node && inner != child
    && (inner != null ==> inner in m)
    && parent != child && parent != node
    && (if parent == null then root == node else parent in m && IsChild(m, parent, node))
  }

  /** Truthful links stay truthful with the missing assignment, or when the moved subtree is empty, and only then. */
  lemma RightRotationLinks(repaired: bool, root: TreeNode?, m: Mem, root': TreeNode?, m': Mem, node: TreeNode)
    requires var right := Get(m, node).right; var inner := Get(m, right).left;
      Placed(root, m, node, right, inner)
    requires LinksTrue(root, m) && RightRotation(repaired, root, m, root', m', node)
    ensures LinksTrue(root', m') <==> repaired || Get(m, Get(m, node).right).left == null
  {
    var inner := Get(m, Get(m, node).right).left;
    if !repaired && inner != null {
      assert Get(m', node).right == inner && Get(m', inner).parent != node;
    }
  }

  lemma LeftRotationLinks(repaired: bool, root: TreeNode?, m: Mem, root': TreeNode?, m': Mem, node: TreeNode)
    requires var left := Get(m, node).left; var inner := Get(m, left).right;
      Placed(root, m, node, left, inner)
    requires LinksTrue(root, m) && LeftRotation(repaired, root, m, root', m', node)
    ensures LinksTrue(root', m') <==> repaired || Get(m, Get(m, node).left).right == null
  {
    var inner := Get(m, Get(m, node).left).right;
    if !repaired && inner != null {
      assert Get(m', node).left == inner && Get(m', inner).parent != node;
    }
  }

  // ---------- one iteration ----------

  /** The rotations of this iteration, if any, move only empty subtrees. */
  predicate MovesEmpty(c: Ctx, t: Shape)
    requires t.Fork? && Unbalanced(c) && BlackRoot(c)
  {
    StepClimbs(c, t);
    IsRed(Uncle(c)) || if c.InLeft? != c.up.InLeft? then t.left.Leaf? && t.right.Leaf? else Sibling(c).Leaf?
  }

  /** So do all rotations of the whole fixup. */
  predicate FixMovesEmpty(c: Ctx, t: Shape)
    requires t.Fork? && BlackRoot(c)
    decreases Depth(c)
  {
    if Unbalanced(c) then
      StepClimbs(c, t);
      MovesEmpty(c, t) && FixMovesEmpty(Step(c, t).0, Step(c, t).1)
    else true
  }

  /** The nodes from the position of `c` up to the root. */
  ghost function Way(c: Ctx, t: Shape): set<TreeNode>
    requires t.Fork?
  {
    {t.node} + Spine(c)
  }

  ghost function Spine(c: Ctx): set<TreeNode> {
    if c.Top? then {} else {c.node} + Spine(c.up)
  }

  lemma {:induction false} SpineInside(c: Ctx)
    ensures Spine(c) <= CtxNodes(c)
  {
    if !c.Top? {
      SpineInside(c.up);
    }
  }

  /** Off the way up there is a child whose parent link is wrong. */
  ghost predicate Stale(m: Mem, c: Ctx, t: Shape)
    requires t.Fork?
  {
    exists n <- m.Keys, ch <- m.Keys ::
      n !in Way(c, t) && ch !in Way(c, t) && IsChild(m, n, ch) && Get(m, ch).parent != n
  }

  ghost predicate LinkStatus(ok: bool, root: TreeNode?, m: Mem, c: Ctx, t: Shape)
    requires t.Fork?
  {
    if ok then LinksTrue(root, m) else Stale(m, c, t)
  }

  lemma StaleStays(m: Mem, m': Mem, c: Ctx, t: Shape, c': Ctx, t': Shape)
    requires t.Fork? && t'.Fork? && Stale(m, c, t) && Way(c', t') <= Way(c, t) && m'.Keys == m.Keys
    requires forall n <- m.Keys :: n !in Way(c, t) ==> Get(m', n) == Get(m, n)
    ensures Stale(m', c', t')
  {
    var n, ch :| n in m.Keys && ch in m.Keys && n !in Way(c, t) && ch !in Way(c, t) && IsChild(m, n, ch) && Get(m, ch).parent != n;
    assert IsChild(m', n, ch);
  }

  lemma PlacedForRight(root: TreeNode?, m: Mem, c: Ctx, t: Shape)
    requires t.Fork? && SeparateAt(c, t) && At(root, m, c, t) && Get(m, t.node).parent == ParentPtr(c)
    requires t.right.Fork? && CtxNodes(c) + Nodes(t) <= m.Keys
    ensures var right, inner := t.right.node, Ptr(t.right.left);
      && Get(m, t.node).right == right && Get(m, right).left == inner
      && Placed(root, m, t.node, right, inner) && (inner != null ==> inner != ParentPtr(c))
  {
    PtrInside(t.left);
    PtrInside(t.right.left);
    var inner := Ptr(t.right.left);
    assert Rep(m, t.right) && Separate(t.right);
    assert inner != null ==> inner in Nodes(t.right) && inner != t.right.node && inner in Nodes(t) && inner in m.Keys;
    assert t.right.node in Nodes(t.right) && t.right.node in Nodes(t);
    assert !c.Top? ==> c.node in CtxNodes(c);
  }

  lemma PlacedForLeft(root: TreeNode?, m: Mem, c: Ctx, t: Shape)
    requires t.Fork? && SeparateAt(c, t) && At(root, m, c, t) && Get(m, t.node).parent == ParentPtr(c)
    requires t.left.Fork? && CtxNodes(c) + Nodes(t) <= m.Keys
    ensures var left, inner := t.left.node, Ptr(t.left.right);
      && Get(m, t.node).left == left && Get(m, left).right == inner && left != Get(m, t.node).right
      && Placed(root, m, t.node, left, inner) && (inner != null ==> inner != ParentPtr(c))
  {
    PtrInside(t.right);
    PtrInside(t.left.right);
    var inner := Ptr(t.left.right);
    assert Rep(m, t.left) && Separate(t.left);
    assert inner != null ==> inner in Nodes(t.left) && inner != t.left.node && inner in Nodes(t) && inner in m.Keys;
    assert t.left.node in Nodes(t.left) && t.left.node in Nodes(t);
    assert !c.Top? ==> c.node in CtxNodes(c);
  }

  /** One rotation: the links stay truthful if nothing is moved; if something is, its link goes stale. */
  lemma RightRotatedStatus(repaired: bool, root: TreeNode?, m: Mem, root': TreeNode?, m': Mem, c: Ctx, t: Shape)
    requires FixState(root, m, c, t) && t.right.Fork? && CtxNodes(c) + Nodes(t) <= m.Keys
    requires RightRotation(repaired, root, m, root', m', t.node)
    ensures LinksTrue(root, m) && (repaired || t.right.left.Leaf?) ==> LinksTrue(root', m')
    ensures LinksTrue(root, m) && !repaired && t.right.left.Fork? ==>
      IsChild(m', t.node, Ptr(t.right.left)) && Get(m', Ptr(t.right.left)).parent != t.node
    ensures !repaired ==> forall n :: n !in Way(c, t) && n != t.right.node ==> Get(m', n) == Get(m, n)
  {
    PlacedForRight(root, m, c, t);
    assert !c.Top? ==> c.node in Spine(c);
    if LinksTrue(root, m) && (repaired || t.right.left.Leaf?) {
      RightRotationLinks(repaired, root, m, root', m', t.node);
    }
  }

  /** One rotation: the links stay truthful if nothing is moved; if something is, its link goes stale. */
  lemma LeftRotatedStatus(repaired: bool, root: TreeNode?, m: Mem, root': TreeNode?, m': Mem, c: Ctx, t: Shape)
    requires FixState(root, m, c, t) && t.left.Fork? && CtxNodes(c) + Nodes(t) <= m.Keys
    requires LeftRotation(repaired, root, m, root', m', t.node)
    ensures LinksTrue(root, m) && (repaired || t.left.right.Leaf?) ==> LinksTrue(root', m')
    ensures LinksTrue(root, m) && !repaired && t.left.right.Fork? ==>
      IsChild(m', t.node, Ptr(t.left.right)) && Get(m', Ptr(t.left.right)).parent != t.node
    ensures !repaired ==> forall n :: n !in Way(c, t) && n != t.left.node ==> Get(m', n) == Get(m, n)
  {
    PlacedForLeft(root, m, c, t);
    assert !c.Top? ==> c.node in Spine(c);
    if LinksTrue(root, m) && (repaired || t.left.right.Leaf?) {
      LeftRotationLinks(repaired, root, m, root', m', t.node);
    }
  }

  lemma StepWay(c: Ctx, t: Shape)
    requires t.Fork? && Unbalanced(c) && BlackRoot(c)
    ensures Way(Step(c, t).0, Step(c, t).1) <= Way(c, t)
    ensures !c.up.Top? && Way(c, t) == {t.node, c.node, c.up.node} + Spine(c.up.up)
  {
    StepClimbs(c, t);
    assert Spine(c) == {c.node} + Spine(c.up);
  }

  lemma FreshStale(m: Mem, c: Ctx, t: Shape, n: TreeNode, ch: TreeNode)
    requires t.Fork? && n in m && ch in m && IsChild(m, n, ch) && Get(m, ch).parent != n
    requires n !in Way(c, t) && ch !in Way(c, t)
    ensures Stale(m, c, t)
  {
  }

  /** The three nodes an iteration looks at are distinct, and what hangs off them is off the way up. */
  ghost predicate WayApart(c: Ctx, t: Shape)
    requires t.Fork? && !c.Top? && !c.up.Top?
  {
    && Way(c, t) == {t.node, c.node, c.up.node} + Spine(c.up.up)
    && c.node != c.up.node && t.node != c.node && t.node != c.up.node
    && c.node !in Spine(c.up.up) && c.up.node !in Spine(c.up.up)
    && (Sibling(c).Fork? ==> Ptr(Sibling(c)) !in Way(c, t))
    && (t.left.Fork? ==> Ptr(t.left) !in Way(c, t))
    && (t.right.Fork? ==> Ptr(t.right) !in Way(c, t))
  }

  lemma WayIsApart(c: Ctx, t: Shape)
    requires t.Fork? && Unbalanced(c) && BlackRoot(c) && SeparateAt(c, t)
    ensures !c.up.Top? && WayApart(c, t)
    ensures Sibling(c).Fork? ==> Sibling(c).node in CtxNodes(c)
    ensures t.left.Fork? ==> t.left.node in Nodes(t)
    ensures t.right.Fork? ==> t.right.node in Nodes(t)
    ensures c.node in CtxNodes(c) && c.up.node in CtxNodes(c)
  {
    StepWay(c, t);
    SpineInside(c.up.up);
    PtrInside(Sibling(c));
    PtrInside(t.left);
    PtrInside(t.right);
    assert SeparateCtx(c.up);
  }

  lemma OnceStatus(repaired: bool, ok: bool, root: TreeNode?, m: Mem, root': TreeNode?, m': Mem, c: Ctx, t: Shape, c': Ctx)
    requires t.Fork? && !c.Top? && !c.up.Top? && WayApart(c, t)
    requires LinkStatus(ok, root, m, c, t) && (repaired ==> ok) && m.Keys == m'.Keys && c.up.node in m
    requires Sibling(c).Fork? ==> Sibling(c).node in m
    requires LinksTrue(root, m) && (repaired || Sibling(c).Leaf?) ==> LinksTrue(root', m')
    requires LinksTrue(root, m) && !repaired && Sibling(c).Fork? ==>
      IsChild(m', c.up.node, Ptr(Sibling(c))) && Get(m', Ptr(Sibling(c))).parent != c.up.node
    requires !repaired ==> forall n :: n !in Way(c, t) ==> Get(m', n) == Get(m, n)
    requires Way(c', t) == {t.node, c.node} + Spine(c.up.up)
    ensures LinkStatus(ok && (repaired || Sibling(c).Leaf?), root', m', c', t)
  {
    if !ok {
      StaleStays(m, m', c, t, c', t);
    } else if !repaired && Sibling(c).Fork? {
      FreshStale(m', c', t, c.up.node, Sibling(c).node);
    }
  }

  lemma TwiceStatus(repaired: bool, ok: bool, root: TreeNode?, m: Mem, r1: TreeNode?, m1: Mem, r2: TreeNode?, m2: Mem,
                    c: Ctx, t: Shape, t': Shape, toP: Shape, toG: Shape)
    requires t.Fork? && !c.Top? && !c.up.Top? && WayApart(c, t)
    requires (toP, toG) == (t.left, t.right) || (toP, toG) == (t.right, t.left)
    requires LinkStatus(ok, root, m, c, t) && (repaired ==> ok) && m.Keys == m1.Keys == m2.Keys
    requires c.node in m && c.up.node in m && (toP.Fork? ==> toP.node in m) && (toG.Fork? ==> toG.node in m)
    requires LinksTrue(root, m) && (repaired || toP.Leaf?) ==> LinksTrue(r1, m1)
    requires LinksTrue(r1, m1) && (repaired || toG.Leaf?) ==> LinksTrue(r2, m2)
    requires LinksTrue(root, m) && !repaired && toP.Fork? ==> IsChild(m1, c.node, Ptr(toP)) && Get(m1, Ptr(toP)).parent != c.node
    requires LinksTrue(r1, m1) && !repaired && toG.Fork? ==> IsChild(m2, c.up.node, Ptr(toG)) && Get(m2, Ptr(toG)).parent != c.up.node
    requires !repaired ==> forall n :: n !in Way(c, t) ==> Get(m1, n) == Get(m, n)
    requires !repaired ==> forall n :: n != t.node && n != c.up.node && n !in Spine(c.up.up) ==> Get(m2, n) == Get(m1, n)
    requires t'.Fork? && t'.node == t.node
    ensures LinkStatus(ok && (repaired || (toP.Leaf? && toG.Leaf?)), r2, m2, c.up.up, t')
  {
    if !ok {
      StaleStays(m, m2, c, t, c.up.up, t');
    } else if !repaired && toP.Fork? {
      FreshStale(m2, c.up.up, t', c.node, toP.node);
    } else if !repaired && toG.Fork? {
      FreshStale(m2, c.up.up, t', c.up.node, toG.node);
    }
  }

  lemma RecolouredStatus(ok: bool, root: TreeNode?, m: Mem, c: Ctx, t: Shape)
    requires t.Fork? && BlackRoot(c) && Unbalanced(c) && IsRed(Uncle(c))
    requires CtxNodes(c) + Nodes(t) <= m.Keys && LinkStatus(ok, root, m, c, t)
    ensures MovesEmpty(c, t) && Recoloured(m, c).Keys == m.Keys && LinkStatus(ok, root, Recoloured(m, c), Step(c, t).0, Step(c, t).1)
  {
    StepClimbs(c, t);
    StepWay(c, t);
    PtrInside(Uncle(c));
    RecolouredPointers(m, c);
    PaintedLinks(m, Recoloured(m, c), root, ok, c, t, Step(c, t).0, Step(c, t).1);
  }

  lemma PaintedLinks(m: Mem, m': Mem, root: TreeNode?, ok: bool, c: Ctx, t: Shape, c': Ctx, t': Shape)
    requires t.Fork? && t'.Fork? && Way(c', t') <= Way(c, t) && m'.Keys == m.Keys
    requires forall n :: Get(m', n).left == Get(m, n).left && Get(m', n).right == Get(m, n).right && Get(m', n).parent == Get(m, n).parent
    requires LinkStatus(ok, root, m, c, t)
    ensures LinkStatus(ok, root, m', c', t')
  {
    if !ok {
      var n, ch :| n in m.Keys && ch in m.Keys && n !in Way(c, t) && ch !in Way(c, t) && IsChild(m, n, ch) && Get(m, ch).parent != n;
      assert IsChild(m', n, ch);
    }
  }

  lemma LeftOnceFacts(repaired: bool, root: TreeNode?, m: Mem, root': TreeNode?, m': Mem, c: Ctx, t: Shape)
    requires FixState(root, m, c, t) && !c.Top? && !c.up.Top? && c.InLeft? && c.up.InLeft? && CtxNodes(c) + Nodes(t) <= m.Keys
    requires LeftRotation(repaired, root, m, root', m', c.up.node)
    ensures LinksTrue(root, m) && (repaired || Sibling(c).Leaf?) ==> LinksTrue(root', m')
    ensures LinksTrue(root, m) && !repaired && Sibling(c).Fork? ==>
      IsChild(m', c.up.node, Ptr(Sibling(c))) && Get(m', Ptr(Sibling(c))).parent != c.up.node
    ensures !repaired ==> forall n :: n != c.up.node && n != c.node && n !in Spine(c.up.up) ==> Get(m', n) == Get(m, n)
  {
    OneUpState(root, m, c, t);
    OneUpState(root, m, c.up, Around(c, t));
    OneUp(root, m, c, t);
    OneUp(root, m, c.up, Around(c, t));
    LeftRotatedStatus(repaired, root, m, root', m', c.up.up, Around(c.up, Around(c, t)));
  }

  lemma LeftOnceStatus(repaired: bool, ok: bool, root: TreeNode?, m: Mem, root': TreeNode?, m': Mem, c: Ctx, t: Shape)
    requires FixState(root, m, c, t) && BlackRoot(c) && Unbalanced(c) && !IsRed(Uncle(c)) && c.InLeft? && c.up.InLeft?
    requires CtxNodes(c) + Nodes(t) <= m.Keys && LinkStatus(ok, root, m, c, t) && (repaired ==> ok)
    requires LeftRotation(repaired, root, m, root', m', c.up.node)
    ensures LinkStatus(ok && (repaired || MovesEmpty(c, t)), root', m', Step(c, t).0, t)
  {
    LeftOnceFacts(repaired, root, m, root', m', c, t);
    WayIsApart(c, t);
    OnceStatus(repaired, ok, root, m, root', m', c, t, Step(c, t).0);
  }

  lemma RightOnceFacts(repaired: bool, root: TreeNode?, m: Mem, root': TreeNode?, m': Mem, c: Ctx, t: Shape)
    requires FixState(root, m, c, t) && !c.Top? && !c.up.Top? && c.InRight? && c.up.InRight? && CtxNodes(c) + Nodes(t) <= m.Keys
    requires RightRotation(repaired, root, m, root', m', c.up.node)
    ensures LinksTrue(root, m) && (repaired || Sibling(c).Leaf?) ==> LinksTrue(root', m')
    ensures LinksTrue(root, m) && !repaired && Sibling(c).Fork? ==>
      IsChild(m', c.up.node, Ptr(Sibling(c))) && Get(m', Ptr(Sibling(c))).parent != c.up.node
    ensures !repaired ==> forall n :: n != c.up.node && n != c.node && n !in Spine(c.up.up) ==> Get(m', n) == Get(m, n)
  {
    OneUpState(root, m, c, t);
    OneUpState(root, m, c.up, Around(c, t));
    OneUp(root, m, c, t);
    OneUp(root, m, c.up, Around(c, t));
    RightRotatedStatus(repaired, root, m, root', m', c.up.up, Around(c.up, Around(c, t)));
  }

  lemma RightOnceStatus(repaired: bool, ok: bool, root: TreeNode?, m: Mem, root': TreeNode?, m': Mem, c: Ctx, t: Shape)
    requires FixState(root, m, c, t) && BlackRoot(c) && Unbalanced(c) && !IsRed(Uncle(c)) && c.InRight? && c.up.InRight?
    requires CtxNodes(c) + Nodes(t) <= m.Keys && LinkStatus(ok, root, m, c, t) && (repaired ==> ok)
    requires RightRotation(repaired, root, m, root', m', c.up.node)
    ensures LinkStatus(ok && (repaired || MovesEmpty(c, t)), root', m', Step(c, t).0, t)
  {
    RightOnceFacts(repaired, root, m, root', m', c, t);
    WayIsApart(c, t);
    OnceStatus(repaired, ok, root, m, root', m', c, t, Step(c, t).0);
  }

  lemma RightThenLeftFacts(repaired: bool, root: TreeNode?, m: Mem, r1: TreeNode?, m1: Mem, r2: TreeNode?, m2: Mem, c: Ctx, t: Shape)
    requires FixState(root, m, c, t) && !c.Top? && !c.up.Top? && c.InRight? && c.up.InLeft? && CtxNodes(c) + Nodes(t) <= m.Keys
    requires RightRotation(repaired, root, m, r1, m1, c.node) && LeftRotation(repaired, r1, m1, r2, m2, c.up.node)
    ensures LinksTrue(root, m) && (repaired || t.left.Leaf?) ==> LinksTrue(r1, m1)
    ensures LinksTrue(r1, m1) && (repaired || t.right.Leaf?) ==> LinksTrue(r2, m2)
    ensures LinksTrue(root, m) && !repaired && t.left.Fork? ==> IsChild(m1, c.node, Ptr(t.left)) && Get(m1, Ptr(t.left)).parent != c.node
    ensures LinksTrue(r1, m1) && !repaired && t.right.Fork? ==> IsChild(m2, c.up.node, Ptr(t.right)) && Get(m2, Ptr(t.right)).parent != c.up.node
    ensures !repaired ==> forall n :: n !in Spine(c) && n != t.node ==> Get(m1, n) == Get(m, n)
    ensures !repaired ==> forall n :: n != t.node && n != c.up.node && n !in Spine(c.up.up) ==> Get(m2, n) == Get(m1, n)
  {
    var P := Around(c, t);
    var P' := RotatedRight(P);
    OneUpState(root, m, c, t);
    OneUp(root, m, c, t);
    RightRotatedStatus(repaired, root, m, r1, m1, c.up, P);
    RightRotatedState(repaired, root, m, r1, m1, c.up, P);
    RotatedSeparate(c.up, P);
    OneUpState(r1, m1, c.up, P');
    OneUp(r1, m1, c.up, P');
    LeftRotatedStatus(repaired, r1, m1, r2, m2, c.up.up, Around(c.up, P'));
  }

  lemma RightThenLeftStatus(repaired: bool, ok: bool, root: TreeNode?, m: Mem, r1: TreeNode?, m1: Mem, r2: TreeNode?, m2: Mem, c: Ctx, t: Shape)
    requires FixState(root, m, c, t) && BlackRoot(c) && Unbalanced(c) && !IsRed(Uncle(c)) && c.InRight? && c.up.InLeft?
    requires CtxNodes(c) + Nodes(t) <= m.Keys && LinkStatus(ok, root, m, c, t) && (repaired ==> ok)
    requires RightRotation(repaired, root, m, r1, m1, c.node) && LeftRotation(repaired, r1, m1, r2, m2, c.up.node)
    ensures LinkStatus(ok && (repaired || MovesEmpty(c, t)), r2, m2, c.up.up, Step(c, t).1)
  {
    RightThenLeftFacts(repaired, root, m, r1, m1, r2, m2, c, t);
    WayIsApart(c, t);
    TwiceStatus(repaired, ok, root, m, r1, m1, r2, m2, c, t, Step(c, t).1, t.left, t.right);
  }

  lemma LeftThenRightFacts(repaired: bool, root: TreeNode?, m: Mem, r1: TreeNode?, m1: Mem, r2: TreeNode?, m2: Mem, c: Ctx, t: Shape)
    requires FixState(root, m, c, t) && !c.Top? && !c.up.Top? && c.InLeft? && c.up.InRight? && CtxNodes(c) + Nodes(t) <= m.Keys
    requires LeftRotation(repaired, root, m, r1, m1, c.node) && RightRotation(repaired, r1, m1, r2, m2, c.up.node)
    ensures LinksTrue(root, m) && (repaired || t.right.Leaf?) ==> LinksTrue(r1, m1)
    ensures LinksTrue(r1, m1) && (repaired || t.left.Leaf?) ==> LinksTrue(r2, m2)
    ensures LinksTrue(root, m) && !repaired && t.right.Fork? ==> IsChild(m1, c.node, Ptr(t.right)) && Get(m1, Ptr(t.right)).parent != c.node
    ensures LinksTrue(r1, m1) && !repaired && t.left.Fork? ==> IsChild(m2, c.up.node, Ptr(t.left)) && Get(m2, Ptr(t.left)).parent != c.up.node
    ensures !repaired ==> forall n :: n !in Spine(c) && n != t.node ==> Get(m1, n) == Get(m, n)
    ensures !repaired ==> forall n :: n != t.node && n != c.up.node && n !in Spine(c.up.up) ==> Get(m2, n) == Get(m1, n)
  {
    var P := Around(c, t);
    var P' := RotatedLeft(P);
    OneUpState(root, m, c, t);
    OneUp(root, m, c, t);
    LeftRotatedStatus(repaired, root, m, r1, m1, c.up, P);
    LeftRotatedState(repaired, root, m, r1, m1, c.up, P);
    RotatedSeparate(c.up, P);
    OneUpState(r1, m1, c.up, P');
    OneUp(r1, m1, c.up, P');
    RightRotatedStatus(repaired, r1, m1, r2, m2, c.up.up, Around(c.up, P'));
  }

  lemma LeftThenRightStatus(repaired: bool, ok: bool, root: TreeNode?, m: Mem, r1: TreeNode?, m1: Mem, r2: TreeNode?, m2: Mem, c: Ctx, t: Shape)
    requires FixState(root, m, c, t) && BlackRoot(c) && Unbalanced(c) && !IsRed(Uncle(c)) && c.InLeft? && c.up.InRight?
    requires CtxNodes(c) + Nodes(t) <= m.Keys && LinkStatus(ok, root, m, c, t) && (repaired ==> ok)
    requires LeftRotation(repaired, root, m, r1, m1, c.node) && RightRotation(repaired, r1, m1, r2, m2, c.up.node)
    ensures LinkStatus(ok && (repaired || MovesEmpty(c, t)), r2, m2, c.up.up, Step(c, t).1)
  {
    LeftThenRightFacts(repaired, root, m, r1, m1, r2, m2, c, t);
    WayIsApart(c, t);
    TwiceStatus(repaired, ok, root, m, r1, m1, r2, m2, c, t, Step(c, t).1, t.right, t.left);
  }
}
