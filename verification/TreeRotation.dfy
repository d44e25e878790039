/**
 * What the two rotations and the recolouring of common/src/tree.c write, and that one iteration
 * of the fixup loop takes the memory from one position of the tree to the next.
 *
 * The source forgets to re-aim the `parent` of the subtree that a rotation moves. With
 * `repaired == false` the rotations below are the source's; with `repaired == true` they make
 * the two missing assignments as well.
 */
module TreeRotation {
  import opened TreeShape
  import opened TreeMemory

  // ---------- one rotation ----------

  /**
   * A rotation at `node` lifts `child` above it, hands the subtree `inner` over from `child` to
   * `node`, and lets whoever `node.parent` is point at `child`. Nothing else changes.
   */
  ghost predicate Rotation(repaired: bool, root: TreeNode?, m: Mem, root': TreeNode?, m': Mem,
                           node: TreeNode, child: TreeNode?, inner: TreeNode?, nodeCell: Cell, childCell: Cell)
  {
    var parent := Get(m, node).parent;
    && m'.Keys == m.Keys
    && Get(m', node) == nodeCell && Get(m', child) == childCell
    && (inner != null ==> Get(m', inner) == if repaired then Get(m, inner).(parent := node) else Get(m, inner))
    && root' == (if parent == null then child else root)
    && (parent != null ==>
          Get(m', parent) == if Get(m, parent).left == node then Get(m, parent).(left := child) else Get(m, parent).(right := child))
    && forall n <- m.Keys :: n != node && n != child && n != inner && n != parent ==> Get(m', n) == Get(m, n)
  }

  ghost predicate RightRotation(repaired: bool, root: TreeNode?, m: Mem, root': TreeNode?, m': Mem, node: TreeNode) {
    var cell := Get(m, node);
    var right := cell.right;
    right != null && Rotation(repaired, root, m, root', m', node, right, Get(m, right).left,
      Cell(cell.left, Get(m, right).left, right, Red), Cell(node, Get(m, right).right, cell.parent, cell.color))
  }

  ghost predicate LeftRotation(repaired: bool, root: TreeNode?, m: Mem, root': TreeNode?, m': Mem, node: TreeNode) {
    var cell := Get(m, node);
    var left := cell.left;
    left != null && Rotation(repaired, root, m, root', m', node, left, Get(m, left).right,
      Cell(Get(m, left).right, cell.right, left, Red), Cell(Get(m, left).left, node, cell.parent, cell.color))
  }

  function RotatedRight(t: Shape): Shape
    requires t.Fork? && t.right.Fork?
  {
    Fork(Fork(t.left, t.node, Red, t.right.left), t.right.node, t.color, t.right.right)
  }

  function RotatedLeft(t: Shape): Shape
    requires t.Fork? && t.left.Fork?
  {
    Fork(t.left.left, t.left.node, t.color, Fork(t.left.right, t.node, Red, t.right))
  }

  lemma RotatedSeparate(c: Ctx, t: Shape)
    requires t.Fork? && SeparateAt(c, t)
    ensures t.right.Fork? ==> SeparateAt(c, RotatedRight(t)) && Nodes(RotatedRight(t)) == Nodes(t) && t.right.node != t.node
    ensures t.left.Fork? ==> SeparateAt(c, RotatedLeft(t)) && Nodes(RotatedLeft(t)) == Nodes(t) && t.left.node != t.node
  {
    SeparateInorder(t);
    if t.right.Fork? {
      RotateInorder(t.left, t.node, t.right.left, t.right.node, t.right.right);
      SeparateInorder(RotatedRight(t));
    }
    if t.left.Fork? {
      RotateInorder(t.left.left, t.left.node, t.left.right, t.node, t.right);
      SeparateInorder(RotatedLeft(t));
    }
  }

  lemma RightTurned(m: Mem, m': Mem, t: Shape)
    requires t.Fork? && t.right.Fork? && Rep(m, t) && Separate(t)
    requires var p, g := t.node, t.right.node;
      && IsCell(m', p, Ptr(t.left), Ptr(t.right.left), Red)
      && IsCell(m', g, p, Ptr(t.right.right), t.color)
    requires SameOn(m, m', Nodes(t) - {t.node, t.right.node})
    ensures Rep(m', RotatedRight(t))
  {
    assert Rep(m, t.right);
    RepFrame(m, m', t.left);
    RepFrame(m, m', t.right.left);
    RepFrame(m, m', t.right.right);
    assert Rep(m', RotatedRight(t).left);
  }

  /**
   * right_rotate as written: the tree becomes the rotated tree iff the parent link of the
   * rotated node is truthful.
   */
  lemma RightRotatedTree(repaired: bool, root: TreeNode?, m: Mem, root': TreeNode?, m': Mem, c: Ctx, t: Shape)
    requires t.Fork? && t.right.Fork? && At(root, m, c, t) && SeparateAt(c, t) && CtxNodes(c) + Nodes(t) <= m.Keys
    requires RightRotation(repaired, root, m, root', m', t.node)
    ensures At(root', m', c, RotatedRight(t)) <==> Get(m, t.node).parent == ParentPtr(c)
  {
    assert Rep(m, t.right);
    PtrInside(t.right.left);
    RotatedSeparate(c, t);
    if Get(m, t.node).parent == ParentPtr(c) {
      RightTurned(m, m', t);
      if !c.Top? {
        SlotSet(m, m', c, t.node, t.right.node);
      }
    } else {
      assert !c.Top? ==> c.node in CtxNodes(c);
    }
  }

  lemma LeftTurned(m: Mem, m': Mem, t: Shape)
    requires t.Fork? && t.left.Fork? && Rep(m, t) && Separate(t)
    requires var p, g := t.node, t.left.node;
      && IsCell(m', p, Ptr(t.left.right), Ptr(t.right), Red)
      && IsCell(m', g, Ptr(t.left.left), p, t.color)
    requires SameOn(m, m', Nodes(t) - {t.node, t.left.node})
    ensures Rep(m', RotatedLeft(t))
  {
    assert Rep(m, t.left);
    RepFrame(m, m', t.right);
    RepFrame(m, m', t.left.right);
    RepFrame(m, m', t.left.left);
    assert Rep(m', RotatedLeft(t).right);
  }

  /**
   * left_rotate as written: the tree becomes the rotated tree iff the parent link of the
   * rotated node is truthful.
   */
  lemma LeftRotatedTree(repaired: bool, root: TreeNode?, m: Mem, root': TreeNode?, m': Mem, c: Ctx, t: Shape)
    requires t.Fork? && t.left.Fork? && At(root, m, c, t) && SeparateAt(c, t) && CtxNodes(c) + Nodes(t) <= m.Keys
    requires LeftRotation(repaired, root, m, root', m', t.node)
    ensures At(root', m', c, RotatedLeft(t)) <==> Get(m, t.node).parent == ParentPtr(c)
  {
    assert Rep(m, t.left);
    PtrInside(t.left.right);
    RotatedSeparate(c, t);
    if Get(m, t.node).parent == ParentPtr(c) {
      LeftTurned(m, m', t);
      if !c.Top? {
        SlotSet(m, m', c, t.node, t.left.node);
      }
    } else {
      assert !c.Top? ==> c.node in CtxNodes(c);
    }
  }

  function Sibling(c: Ctx): Shape
    requires !c.Top?
  {
    if c.InLeft? then c.right else c.left
  }

  /** The fixup's reads see the shape: parent, grandparent, uncle, and on which sides they hang. */
  lemma Family(root: TreeNode?, m: Mem, c: Ctx, t: Shape)
    requires FixState(root, m, c, t) && BlackRoot(c) && Unbalanced(c)
    ensures !c.up.Top? && Get(m, t.node).parent == c.node && Get(m, c.node).parent == c.up.node
    ensures Get(m, c.up.node).left == c.node <==> c.up.InLeft?
    ensures Get(m, c.node).left == t.node <==> c.InLeft?
    ensures Get(m, c.node).right == t.node <==> c.InRight?
    ensures Ptr(Uncle(c)) == if c.up.InLeft? then Get(m, c.up.node).right else Get(m, c.up.node).left
    ensures Uncle(c).Fork? ==> Get(m, Ptr(Uncle(c))).color == Uncle(c).color
    ensures Get(m, c.up.node).parent == ParentPtr(c.up.up) && PathLinks(m, c.up.up)
  {
    PtrInside(Sibling(c));
    PtrInside(Sibling(c.up));
    assert RepCtx(m, c.up, c.node) && SeparateCtx(c.up) && PathLinks(m, c.up);
  }

  lemma PaintedTree(root: TreeNode?, m: Mem, c: Ctx, t: Shape, color: Color)
    requires t.Fork? && At(root, m, c, t) && SeparateAt(c, t)
    ensures At(root, WithColor(m, t.node, color), c, t.(color := color)) && SeparateAt(c, t.(color := color))
  {
    var m' := WithColor(m, t.node, color);
    RepFrame(m, m', t.left);
    RepFrame(m, m', t.right);
    RepCtxFrame(m, m', c, t.node);
  }

  /** The same tree, seen from the other child of the node above. */
  function Across(c: Ctx, t: Shape): Ctx
    requires !c.Top?
  {
    if c.InLeft? then InRight(c.up, t, c.node, c.color) else InLeft(c.up, c.node, c.color, t)
  }

  /** Painting the node one level above and its other child. */
  lemma PaintedBelow(root: TreeNode?, m: Mem, c: Ctx, t: Shape)
    requires t.Fork? && !c.Top? && Sibling(c).Fork? && At(root, m, c, t) && SeparateAt(c, t)
    ensures var t', s := t.(color := Black), Sibling(c);
      var m' := WithColor(WithColor(m, t.node, Black), s.node, Black);
      var c' := if c.InLeft? then c.(right := Blacken(s)) else c.(left := Blacken(s));
      At(root, m', c', t') && SeparateAt(c', t')
  {
    var s, t' := Sibling(c), t.(color := Black);
    var m1 := WithColor(m, t.node, Black);
    var m2 := WithColor(m1, s.node, Black);
    PaintedTree(root, m, c, t, Black);
    OneUp(root, m1, c, t');
    OneUp(root, m1, Across(c, t'), s);
    PaintedTree(root, m1, Across(c, t'), s, Black);
    OneUp(root, m2, Across(c, t'), Blacken(s));
    var c' := if c.InLeft? then c.(right := Blacken(s)) else c.(left := Blacken(s));
    OneUp(root, m2, c', t');
  }

  /** The colour change of one iteration: parent and uncle black, grandparent red. */
  function Recoloured(m: Mem, c: Ctx): Mem
    requires !c.Top? && !c.up.Top? && Uncle(c).Fork?
  {
    WithColor(WithColor(WithColor(m, c.node, Black), Uncle(c).node, Black), c.up.node, Red)
  }

  lemma RecolouredAt(root: TreeNode?, m: Mem, c: Ctx, t: Shape)
    requires t.Fork? && Unbalanced(c) && BlackRoot(c) && IsRed(Uncle(c)) && At(root, m, c, t) && SeparateAt(c, t)
    ensures var (c', t') := Step(c, t);
      At(root, Recoloured(m, c), c', t')
  {
    var P, u := Around(c, t), Uncle(c);
    OneUp(root, m, c, t);
    PaintedBelow(root, m, c.up, P);
    var m2 := WithColor(WithColor(m, P.node, Black), u.node, Black);
    var c1 := if c.up.InLeft? then c.up.(right := Blacken(u)) else c.up.(left := Blacken(u));
    OneUp(root, m2, c1, P.(color := Black));
    PaintedTree(root, m2, c1.up, Around(c1, P.(color := Black)), Red);
  }

  /** Painting writes no pointer. */
  lemma PaintedPointers(m: Mem, k: TreeNode, color: Color)
    ensures forall n :: var (cell, was) := (Get(WithColor(m, k, color), n), Get(m, n));
      cell.left == was.left && cell.right == was.right && cell.parent == was.parent
  {
  }

  lemma RecolouredPointers(m: Mem, c: Ctx)
    requires !c.Top? && !c.up.Top? && Uncle(c).Fork?
    ensures forall n :: var (cell, was) := (Get(Recoloured(m, c), n), Get(m, n));
      cell.left == was.left && cell.right == was.right && cell.parent == was.parent
    ensures Recoloured(m, c).Keys == m.Keys + {c.node, c.up.node, Uncle(c).node}
  {
    var m1 := WithColor(m, c.node, Black);
    var m2 := WithColor(m1, Uncle(c).node, Black);
    PaintedPointers(m, c.node, Black);
    PaintedPointers(m1, Uncle(c).node, Black);
    PaintedPointers(m2, c.up.node, Red);
  }

  lemma RecolouredFix(root: TreeNode?, m: Mem, c: Ctx, t: Shape)
    requires FixState(root, m, c, t) && BlackRoot(c) && Unbalanced(c) && IsRed(Uncle(c))
    ensures FixState(root, Recoloured(m, c), Step(c, t).0, Step(c, t).1)
  {
    Family(root, m, c, t);
    StepClimbs(c, t);
    StepSeparate(c, t);
    RecolouredAt(root, m, c, t);
    RecolouredPointers(m, c);
    PathLinksFrame(m, Recoloured(m, c), c.up.up);
    assert Step(c, t).0 == c.up.up && Ptr(Step(c, t).1) == c.up.node;
  }

  /** After a rotation at a node with a truthful parent link, the way up is as truthful as before. */
  lemma RightRotatedState(repaired: bool, root: TreeNode?, m: Mem, root': TreeNode?, m': Mem, c: Ctx, t: Shape)
    requires FixState(root, m, c, t) && t.right.Fork? && CtxNodes(c) + Nodes(t) <= m.Keys
    requires RightRotation(repaired, root, m, root', m', t.node)
    ensures FixState(root', m', c, RotatedRight(t)) && Get(m', t.node).parent == t.right.node
    ensures forall n :: n in Nodes(t) && n != t.node && n != t.right.node && n != Ptr(t.right.left) ==> Get(m', n) == Get(m, n)
  {
    RightRotatedTree(repaired, root, m, root', m', c, t);
    assert Rep(m, t.right);
    RotatedSeparate(c, t);
    PtrInside(t.right.left);
    PathLinksFrame(m, m', c);
  }

  /** After a rotation at a node with a truthful parent link, the way up is as truthful as before. */
  lemma LeftRotatedState(repaired: bool, root: TreeNode?, m: Mem, root': TreeNode?, m': Mem, c: Ctx, t: Shape)
    requires FixState(root, m, c, t) && t.left.Fork? && CtxNodes(c) + Nodes(t) <= m.Keys
    requires LeftRotation(repaired, root, m, root', m', t.node)
    ensures FixState(root', m', c, RotatedLeft(t)) && Get(m', t.node).parent == t.left.node
    ensures forall n :: n in Nodes(t) && n != t.node && n != t.left.node && n != Ptr(t.left.right) ==> Get(m', n) == Get(m, n)
  {
    LeftRotatedTree(repaired, root, m, root', m', c, t);
    assert Rep(m, t.left);
    RotatedSeparate(c, t);
    PtrInside(t.left.right);
    PathLinksFrame(m, m', c);
  }

  /** The single rotation to the left: node and parent both hang on the left. */
  lemma LeftOnceFix(repaired: bool, root: TreeNode?, m: Mem, root': TreeNode?, m': Mem, c: Ctx, t: Shape)
    requires FixState(root, m, c, t) && BlackRoot(c) && Unbalanced(c) && !IsRed(Uncle(c)) && c.InLeft? && c.up.InLeft?
    requires CtxNodes(c) + Nodes(t) <= m.Keys && LeftRotation(repaired, root, m, root', m', c.up.node)
    ensures FixState(root', m', Step(c, t).0, t)
  {
    var P := Around(c, t);
    OneUpState(root, m, c, t);
    OneUpState(root, m, c.up, P);
    OneUp(root, m, c, t);
    OneUp(root, m, c.up, P);
    LeftRotatedState(repaired, root, m, root', m', c.up.up, Around(c.up, P));
    PtrInside(t);
    PtrInside(Sibling(c));
    OneDownState(root', m', Step(c, t).0, t);
  }

  /** The single rotation to the right: node and parent both hang on the right. */
  lemma RightOnceFix(repaired: bool, root: TreeNode?, m: Mem, root': TreeNode?, m': Mem, c: Ctx, t: Shape)
    requires FixState(root, m, c, t) && BlackRoot(c) && Unbalanced(c) && !IsRed(Uncle(c)) && c.InRight? && c.up.InRight?
    requires CtxNodes(c) + Nodes(t) <= m.Keys && RightRotation(repaired, root, m, root', m', c.up.node)
    ensures FixState(root', m', Step(c, t).0, t)
  {
    var P := Around(c, t);
    OneUpState(root, m, c, t);
    OneUpState(root, m, c.up, P);
    OneUp(root, m, c, t);
    OneUp(root, m, c.up, P);
    RightRotatedState(repaired, root, m, root', m', c.up.up, Around(c.up, P));
    PtrInside(t);
    PtrInside(Sibling(c));
    OneDownState(root', m', Step(c, t).0, t);
  }

  /** The double rotation: the parent hangs on the left, the node on its right. */
  lemma RightThenLeftFix(repaired: bool, root: TreeNode?, m: Mem, r1: TreeNode?, m1: Mem, r2: TreeNode?, m2: Mem, c: Ctx, t: Shape)
    requires FixState(root, m, c, t) && BlackRoot(c) && Unbalanced(c) && !IsRed(Uncle(c)) && c.InRight? && c.up.InLeft?
    requires CtxNodes(c) + Nodes(t) <= m.Keys
    requires RightRotation(repaired, root, m, r1, m1, c.node) && LeftRotation(repaired, r1, m1, r2, m2, c.up.node)
    ensures FixState(r2, m2, c.up.up, Step(c, t).1)
  {
    var P := Around(c, t);
    OneUpState(root, m, c, t);
    OneUp(root, m, c, t);
    RightRotatedState(repaired, root, m, r1, m1, c.up, P);
    RotatedSeparate(c.up, P);
    OneUpState(r1, m1, c.up, RotatedRight(P));
    OneUp(r1, m1, c.up, RotatedRight(P));
    LeftRotatedState(repaired, r1, m1, r2, m2, c.up.up, Around(c.up, RotatedRight(P)));
  }

  /** The double rotation: the parent hangs on the right, the node on its left. */
  lemma LeftThenRightFix(repaired: bool, root: TreeNode?, m: Mem, r1: TreeNode?, m1: Mem, r2: TreeNode?, m2: Mem, c: Ctx, t: Shape)
    requires FixState(root, m, c, t) && BlackRoot(c) && Unbalanced(c) && !IsRed(Uncle(c)) && c.InLeft? && c.up.InRight?
    requires CtxNodes(c) + Nodes(t) <= m.Keys
    requires LeftRotation(repaired, root, m, r1, m1, c.node) && RightRotation(repaired, r1, m1, r2, m2, c.up.node)
    ensures FixState(r2, m2, c.up.up, Step(c, t).1)
  {
    var P := Around(c, t);
    OneUpState(root, m, c, t);
    OneUp(root, m, c, t);
    LeftRotatedState(repaired, root, m, r1, m1, c.up, P);
    RotatedSeparate(c.up, P);
    OneUpState(r1, m1, c.up, RotatedLeft(P));
    OneUp(r1, m1, c.up, RotatedLeft(P));
    RightRotatedState(repaired, r1, m1, r2, m2, c.up.up, Around(c.up, RotatedLeft(P)));
  }
}
