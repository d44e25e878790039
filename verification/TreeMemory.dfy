/**
 * The pointers of the tree in common/src/tree.c as a value, and which tree they represent.
 */
module TreeMemory {
  import opened TreeShape

  datatype Cell = Cell(left: TreeNode?, right: TreeNode?, parent: TreeNode?, color: Color)

  type Mem = map<TreeNode, Cell>

  function Get(m: Mem, n: TreeNode?): Cell {
    if n != null && n in m then m[n] else Cell(null, null, null, Black)
  }

  function WithColor(m: Mem, n: TreeNode, color: Color): Mem {
    m[n := Get(m, n).(color := color)]
  }

  // ---------- what the memory represents ----------

  function Ptr(t: Shape): TreeNode? {
    if t.Leaf? then null else t.node
  }

  function ParentPtr(c: Ctx): TreeNode? {
    if c.Top? then null else c.node
  }

  function RootPtr(c: Ctx, hole: TreeNode?): TreeNode? {
    if c.Top? then hole else RootPtr(c.up, c.node)
  }

  ghost function Nodes(t: Shape): set<TreeNode> {
    match t
    case Leaf => {}
    case Fork(l, n, _, r) => Nodes(l) + {n} + Nodes(r)
  }

  ghost function CtxNodes(c: Ctx): set<TreeNode> {
    match c
    case Top => {}
    case InLeft(up, p, _, s) => CtxNodes(up) + {p} + Nodes(s)
    case InRight(up, s, p, _) => CtxNodes(up) + {p} + Nodes(s)
  }

  predicate IsCell(m: Mem, n: TreeNode, left: TreeNode?, right: TreeNode?, color: Color) {
    Get(m, n).left == left && Get(m, n).right == right && Get(m, n).color == color
  }

  /** Below `Ptr(t)`, children and colours are those of `t`. */
  ghost predicate Rep(m: Mem, t: Shape) {
    match t
    case Leaf => true
    case Fork(l, n, col, r) => IsCell(m, n, Ptr(l), Ptr(r), col) && Rep(m, l) && Rep(m, r)
  }

  /** Around the position of `c` the memory is `c`, and the slot at that position holds `hole`. */
  ghost predicate RepCtx(m: Mem, c: Ctx, hole: TreeNode?) {
    match c
    case Top => true
    case InLeft(up, p, pc, s) => IsCell(m, p, hole, Ptr(s), pc) && Rep(m, s) && RepCtx(m, up, p)
    case InRight(up, s, p, pc) => IsCell(m, p, Ptr(s), hole, pc) && Rep(m, s) && RepCtx(m, up, p)
  }

  /** The whole tree is `Plug(c, t)`. */
  ghost predicate At(root: TreeNode?, m: Mem, c: Ctx, t: Shape) {
    root == RootPtr(c, Ptr(t)) && RepCtx(m, c, Ptr(t)) && Rep(m, t)
  }

  /** Nothing but parent links differs on `s`. */
  ghost predicate SameOn(m: Mem, m': Mem, s: set<TreeNode>) {
    forall n :: n in s ==> IsCell(m', n, Get(m, n).left, Get(m, n).right, Get(m, n).color)
  }

  lemma {:induction false} RepFrame(m: Mem, m': Mem, t: Shape)
    requires Rep(m, t) && SameOn(m, m', Nodes(t))
    ensures Rep(m', t)
  {
    if t.Fork? {
      RepFrame(m, m', t.left);
      RepFrame(m, m', t.right);
    }
  }

  lemma {:induction false} RepCtxFrame(m: Mem, m': Mem, c: Ctx, hole: TreeNode?)
    requires RepCtx(m, c, hole) && SameOn(m, m', CtxNodes(c))
    ensures RepCtx(m', c, hole)
  {
    if !c.Top? {
      RepFrame(m, m', if c.InLeft? then c.right else c.left);
      RepCtxFrame(m, m', c.up, c.node);
    }
  }

  // ---------- no node occurs twice ----------

  ghost predicate Separate(t: Shape) {
    t.Fork? ==>
      && t.node !in Nodes(t.left) && t.node !in Nodes(t.right) && Nodes(t.left) !! Nodes(t.right)
      && Separate(t.left) && Separate(t.right)
  }

  ghost predicate SeparateCtx(c: Ctx) {
    match c
    case Top => true
    case InLeft(up, p, _, s) => p !in Nodes(s) && p !in CtxNodes(up) && Nodes(s) !! CtxNodes(up) && Separate(s) && SeparateCtx(up)
    case InRight(up, s, p, _) => p !in Nodes(s) && p !in CtxNodes(up) && Nodes(s) !! CtxNodes(up) && Separate(s) && SeparateCtx(up)
  }

  ghost predicate SeparateAt(c: Ctx, t: Shape) {
    Separate(t) && SeparateCtx(c) && Nodes(t) !! CtxNodes(c)
  }

  /** No node occurs twice iff there are as many nodes as places. */
  lemma {:induction false} SeparateInorder(t: Shape)
    ensures Nodes(t) == set n | n in Inorder(t)
    ensures |Nodes(t)| <= |Inorder(t)|
    ensures Separate(t) <==> |Nodes(t)| == |Inorder(t)|
  {
    if t.Fork? {
      SeparateInorder(t.left);
      SeparateInorder(t.right);
      UnionSize(Nodes(t.left), t.node, Nodes(t.right));
    }
  }

  lemma UnionSize<X>(a: set<X>, x: X, b: set<X>)
    ensures |a + {x} + b| <= |a| + 1 + |b|
    ensures |a + {x} + b| == |a| + 1 + |b| <==> x !in a && x !in b && a !! b
  {
    assert a + {x} + b == (a + b) + {x};
  }

  lemma {:induction false} PlugSeparate(c: Ctx, t: Shape)
    ensures SeparateAt(c, t) <==> Separate(Plug(c, t))
    ensures Nodes(Plug(c, t)) == CtxNodes(c) + Nodes(t)
  {
    match c
    case Top =>
    case InLeft(up, p, pc, s) => PlugSeparate(up, Fork(t, p, pc, s));
    case InRight(up, s, p, pc) => PlugSeparate(up, Fork(s, p, pc, t));
  }

  /** An iteration of the fixup rearranges the same nodes. */
  lemma StepSeparate(c: Ctx, t: Shape)
    requires t.Fork? && Unbalanced(c) && BlackRoot(c) && SeparateAt(c, t)
    ensures SeparateAt(Step(c, t).0, Step(c, t).1)
    ensures CtxNodes(Step(c, t).0) + Nodes(Step(c, t).1) == CtxNodes(c) + Nodes(t)
  {
    var (c', t') := Step(c, t);
    StepInorder(c, t);
    PlugSeparate(c, t);
    PlugSeparate(c', t');
    SeparateInorder(Plug(c, t));
    SeparateInorder(Plug(c', t'));
  }

  lemma PtrInside(t: Shape)
    ensures t.Fork? ==> Ptr(t) in Nodes(t)
  {
  }

  lemma SlotSet(m: Mem, m': Mem, c: Ctx, node: TreeNode, top: TreeNode)
    requires !c.Top? && RepCtx(m, c, node) && SeparateCtx(c) && SameOn(m, m', CtxNodes(c) - {c.node})
    requires var cell := Get(m, c.node);
      IsCell(m', c.node, if c.InLeft? then top else cell.left, if c.InLeft? then cell.right else top, cell.color)
    ensures RepCtx(m', c, top)
  {
    RepFrame(m, m', if c.InLeft? then c.right else c.left);
    RepCtxFrame(m, m', c.up, c.node);
  }

  // ---------- seen from one position ----------

  /** The parent links on the way from the position of `c` up to the root are truthful. */
  ghost predicate PathLinks(m: Mem, c: Ctx) {
    !c.Top? ==> Get(m, c.node).parent == ParentPtr(c.up) && PathLinks(m, c.up)
  }

  lemma {:induction false} PathLinksFrame(m: Mem, m': Mem, c: Ctx)
    requires PathLinks(m, c) && forall n :: n in CtxNodes(c) ==> Get(m', n).parent == Get(m, n).parent
    ensures PathLinks(m', c)
  {
    if !c.Top? {
      PathLinksFrame(m, m', c.up);
    }
  }

  /** The subtree one level above the position of `c`. */
  function Around(c: Ctx, t: Shape): Shape
    requires !c.Top?
  {
    if c.InLeft? then Fork(t, c.node, c.color, c.right) else Fork(c.left, c.node, c.color, t)
  }

  lemma OneUp(root: TreeNode?, m: Mem, c: Ctx, t: Shape)
    requires !c.Top?
    ensures At(root, m, c, t) <==> At(root, m, c.up, Around(c, t))
    ensures SeparateAt(c, t) <==> SeparateAt(c.up, Around(c, t))
    ensures CtxNodes(c) + Nodes(t) == CtxNodes(c.up) + Nodes(Around(c, t))
  {
  }

  /** What the fixup knows about the memory whenever its loop guard is evaluated. */
  ghost predicate FixState(root: TreeNode?, m: Mem, c: Ctx, t: Shape) {
    && t.Fork? && SeparateAt(c, t) && At(root, m, c, t)
    && Get(m, t.node).parent == ParentPtr(c) && PathLinks(m, c)
  }

  lemma OneUpState(root: TreeNode?, m: Mem, c: Ctx, t: Shape)
    requires FixState(root, m, c, t) && !c.Top?
    ensures FixState(root, m, c.up, Around(c, t))
  {
    OneUp(root, m, c, t);
  }

  lemma OneDownState(root: TreeNode?, m: Mem, c: Ctx, t: Shape)
    requires !c.Top? && t.Fork? && FixState(root, m, c.up, Around(c, t)) && Get(m, t.node).parent == c.node
    ensures FixState(root, m, c, t)
  {
    OneUp(root, m, c, t);
  }
}
