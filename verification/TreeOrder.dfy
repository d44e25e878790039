/**
 * When the code of common/src/tree.c keeps a search tree, whatever its parent links are: exactly as
 * long as every rotation is at a node that names its parent.
 */
module TreeOrder {
  import opened Wrappers
  import opened TreeShape
  import opened TreeMemory
  import opened TreeRotation
  import opened TreeLinks
  import opened TreeFixup
  import opened TreeProgram
  import opened TreeRefinement

  /** The tree below `p`, if it is one and made of the nodes `left` only. */
  ghost function Below(m: Mem, p: TreeNode?, left: set<TreeNode>): Option<Shape>
    decreases |left|
  {
    if p == null then Some(Leaf)
    else if p !in left then None
    else
      var l := Below(m, Get(m, p).left, left - {p});
      if l.None? then None
      else
        var r := Below(m, Get(m, p).right, left - {p} - Nodes(l.value));
        if r.None? then None else Some(Fork(l.value, p, Get(m, p).color, r.value))
  }

  /** All nodes of the memory are in one tree below its root. */
  ghost predicate IsTree(h: Image) {
    var t := Below(h.mem, h.root, h.mem.Keys);
    t.Some? && Nodes(t.value) == h.mem.Keys
  }

  ghost function TreeIn(h: Image): Shape
    requires IsTree(h)
  {
    Below(h.mem, h.root, h.mem.Keys).value
  }

  ghost predicate Holds(h: Image, t: Shape) {
    At(h.root, h.mem, Top, t) && Separate(t) && Nodes(t) == h.mem.Keys
  }

  lemma {:induction false} BelowRep(m: Mem, p: TreeNode?, left: set<TreeNode>)
    requires Below(m, p, left).Some?
    ensures var t := Below(m, p, left).value; Rep(m, t) && Separate(t) && Nodes(t) <= left && Ptr(t) == p
    decreases |left|
  {
    if p != null {
      var t := Below(m, p, left).value;
      BelowRep(m, Get(m, p).left, left - {p});
      BelowRep(m, Get(m, p).right, left - {p} - Nodes(t.left));
    }
  }

  lemma {:induction false} BelowIs(m: Mem, t: Shape, left: set<TreeNode>)
    requires Rep(m, t) && Separate(t) && Nodes(t) <= left
    ensures Below(m, Ptr(t), left) == Some(t)
    decreases t
  {
    if t.Fork? {
      BelowIs(m, t.left, left - {t.node});
      BelowIs(m, t.right, left - {t.node} - Nodes(t.left));
    }
  }

  /** A memory holds one tree at most. */
  lemma HoldsMeans(h: Image, t: Shape)
    ensures Holds(h, t) <==> IsTree(h) && TreeIn(h) == t
  {
    if Holds(h, t) {
      BelowIs(h.mem, t, h.mem.Keys);
    } else if IsTree(h) {
      BelowRep(h.mem, h.root, h.mem.Keys);
    }
  }

  /** A tree that has the nodes `ns` in this order. */
  ghost predicate Lists(h: Image, ns: seq<TreeNode>) {
    IsTree(h) && Inorder(TreeIn(h)) == ns
  }

  /** The parent link of `n` leads to its parent, or `n` is the root and has none. */
  predicate Named(h: Image, n: TreeNode) {
    var parent := Get(h.mem, n).parent;
    if parent == null then h.root == n else IsChild(h.mem, parent, n)
  }

  // ---------- one position ----------

  lemma {:induction false} Position(c: Ctx, t: Shape, n: TreeNode) returns (c': Ctx, s: Shape)
    requires n in Nodes(t)
    ensures Plug(c', s) == Plug(c, t) && s.Fork? && s.node == n
    decreases t
  {
    if t.node == n {
      c', s := c, t;
    } else if n in Nodes(t.left) {
      c', s := Position(InLeft(c, t.node, t.color, t.right), t.left, n);
    } else {
      c', s := Position(InRight(c, t.left, t.node, t.color), t.right, n);
    }
  }

  /** The memory, seen from the position of `c`. */
  ghost predicate Seen(h: Image, c: Ctx, s: Shape) {
    s.Fork? && At(h.root, h.mem, c, s) && SeparateAt(c, s) && CtxNodes(c) + Nodes(s) == h.mem.Keys
  }

  lemma Focus(h: Image, n: TreeNode) returns (c: Ctx, s: Shape)
    requires IsTree(h) && n in h.mem
    ensures Seen(h, c, s) && s.node == n && Plug(c, s) == TreeIn(h)
  {
    var t := TreeIn(h);
    HoldsMeans(h, t);
    c, s := Position(Top, t, n);
    ShapeAt(h.root, h.mem, c, s, t);
    PlugSeparate(c, s);
  }

  lemma Unfocus(h: Image, c: Ctx, s: Shape)
    requires Seen(h, c, s)
    ensures Lists(h, Inorder(Plug(c, s))) && TreeIn(h) == Plug(c, s)
  {
    PlugAt(h.root, h.mem, c, s);
    PlugSeparate(c, s);
    HoldsMeans(h, Plug(c, s));
  }

  /** In a tree no node is the child of two, or of the root's parent. */
  lemma {:induction false} OneParent(m: Mem, t: Shape)
    requires Rep(m, t) && Separate(t)
    ensures forall a, b, x {:trigger IsChild(m, a, x), IsChild(m, b, x)} ::
      a in Nodes(t) && b in Nodes(t) && IsChild(m, a, x) && IsChild(m, b, x) ==> a == b
    ensures forall a {:trigger IsChild(m, a, Ptr(t))} :: a in Nodes(t) ==> !IsChild(m, a, Ptr(t))
  {
    if t.Fork? {
      OneParent(m, t.left);
      OneParent(m, t.right);
      RepClosed(m, t.left);
      RepClosed(m, t.right);
      PtrInside(t.left);
      PtrInside(t.right);
    }
  }

  lemma OnlyParent(h: Image, a: TreeNode, b: TreeNode, x: TreeNode)
    requires IsTree(h) && a in h.mem && b in h.mem && IsChild(h.mem, a, x)
    ensures h.root != x
    ensures IsChild(h.mem, b, x) ==> a == b
  {
    HoldsMeans(h, TreeIn(h));
    OneParent(h.mem, TreeIn(h));
  }

  lemma ParentSeen(h: Image, c: Ctx, s: Shape)
    requires Seen(h, c, s)
    ensures if c.Top? then h.root == s.node else c.node in h.mem && c.node != s.node && IsChild(h.mem, c.node, s.node)
    ensures s.node in h.mem
  {
    PtrInside(s);
  }

  lemma NamedMeans(h: Image, c: Ctx, s: Shape)
    requires Seen(h, c, s)
    ensures Named(h, s.node) <==> Get(h.mem, s.node).parent == ParentPtr(c)
  {
    ParentSeen(h, c, s);
    Unfocus(h, c, s);
    var parent := Get(h.mem, s.node).parent;
    if parent != null && IsChild(h.mem, parent, s.node) {
      OnlyParent(h, parent, if c.Top? then parent else c.node, s.node);
    } else if parent == null && h.root == s.node && !c.Top? {
      OnlyParent(h, c.node, c.node, s.node);
    }
  }

  // ---------- one rotation ----------

  /** A rotation to the right at a node that names its parent keeps the tree and its order. */
  lemma TurnRightTrue(repaired: bool, h: Image, c: Ctx, s: Shape)
    requires Seen(h, c, s) && s.right.Fork? && Get(h.mem, s.node).parent == ParentPtr(c)
    ensures Get(h.mem, s.node).right != null && Lists(TurnRight(repaired, h, s.node), Inorder(Plug(c, s)))
  {
    hide TurnRight, RightRotation;
    RightTurnAt(repaired, h, c, s);
    var r := TurnRight(repaired, h, s.node);
    RightRotatedTree(repaired, h.root, h.mem, r.root, r.mem, c, s);
    RotatedSeparate(c, s);
    RotateInorder(s.left, s.node, s.right.left, s.right.node, s.right.right);
    PlugInorder(c, s, RotatedRight(s));
    Unfocus(r, c, RotatedRight(s));
  }

  lemma PromoteChildren(root: TreeNode?, m: Mem, parent: TreeNode?, node: TreeNode, child: TreeNode)
    ensures var r := Promote(root, m, parent, node, child);
      && m.Keys <= r.mem.Keys && r.root == (if parent == null then child else root)
      && (forall k: TreeNode :: k != parent ==> Get(r.mem, k).left == Get(m, k).left && Get(r.mem, k).right == Get(m, k).right)
      && (parent != null ==> if Get(m, parent).left == node then Get(r.mem, parent).left == child else Get(r.mem, parent).right == child)
  {
  }

  lemma MoveLeftChildren(repaired: bool, m: Mem, node: TreeNode, child: TreeNode)
    ensures var r := MoveLeft(repaired, m, node, child);
      m.Keys <= r.Keys && forall k: TreeNode :: k != node ==> Get(r, k).left == Get(m, k).left && Get(r, k).right == Get(m, k).right
  {
  }

  /** What a rotation to the right leaves of the links to `n`, if the parent link of `n` leads elsewhere. */
  lemma TurnRightDoubles(repaired: bool, h: Image, n: TreeNode, r: TreeNode, up: TreeNode?)
    requires Get(h.mem, n).right == r && r != n && Get(h.mem, n).parent != up
    requires if up == null then h.root == n else up != n && up != r && IsChild(h.mem, up, n)
    ensures var q, h' := Get(h.mem, n).parent, TurnRight(repaired, h, n);
      if q == r then IsChild(h'.mem, r, r)
      else IsChild(h'.mem, r, n) && if up == null then h'.root == n else IsChild(h'.mem, up, n)
    ensures h.mem.Keys <= TurnRight(repaired, h, n).mem.Keys
  {
    hide MoveLeft, Promote, HookUp, WithColor, WithParent;
    var m := WithLeft(MoveLeft(repaired, h.mem, n, r), r, n);
    MoveLeftChildren(repaired, h.mem, n, r);
    PromoteChildren(h.root, m, Get(h.mem, n).parent, n, r);
  }

  /** At any other node the rotated node gets a second parent, or a node becomes its own child. */
  lemma TurnRightFalse(repaired: bool, h: Image, c: Ctx, s: Shape)
    requires Seen(h, c, s) && s.right.Fork? && Get(h.mem, s.node).parent != ParentPtr(c)
    ensures Get(h.mem, s.node).right != null && !IsTree(TurnRight(repaired, h, s.node))
  {
    hide TurnRight, IsTree, IsChild;
    var n, r := s.node, s.right.node;
    ParentSeen(h, c, s);
    TurnRightDoubles(repaired, h, n, r, ParentPtr(c));
    var h' := TurnRight(repaired, h, n);
    if IsTree(h') {
      if Get(h.mem, n).parent == r {
        OwnChild(h', r);
      } else {
        OnlyParent(h', r, if c.Top? then r else c.node, n);
      }
    }
  }

  lemma TurnRightTree(repaired: bool, h: Image, ns: seq<TreeNode>, n: TreeNode)
    requires Lists(h, ns) && n in h.mem && Get(h.mem, n).right != null
    ensures IsTree(TurnRight(repaired, h, n)) <==> Named(h, n)
    ensures Named(h, n) ==> Lists(TurnRight(repaired, h, n), ns)
  {
    hide TurnRight, Lists, IsTree, Named;
    var c, s := FocusOn(h, ns, n);
    NamedMeans(h, c, s);
    if Named(h, n) {
      TurnRightTrue(repaired, h, c, s);
      ListsTree(TurnRight(repaired, h, n), ns);
    } else {
      TurnRightFalse(repaired, h, c, s);
    }
  }

  lemma ListsTree(h: Image, ns: seq<TreeNode>)
    requires Lists(h, ns)
    ensures IsTree(h)
  {
  }

  lemma FocusOn(h: Image, ns: seq<TreeNode>, n: TreeNode) returns (c: Ctx, s: Shape)
    requires Lists(h, ns) && n in h.mem
    ensures Seen(h, c, s) && s.node == n && Inorder(Plug(c, s)) == ns
    ensures Ptr(s.left) == Get(h.mem, n).left && Ptr(s.right) == Get(h.mem, n).right
  {
    c, s := Focus(h, n);
  }

  /** A rotation to the left at a node that names its parent keeps the tree and its order. */
  lemma TurnLeftTrue(repaired: bool, h: Image, c: Ctx, s: Shape)
    requires Seen(h, c, s) && s.left.Fork? && Get(h.mem, s.node).parent == ParentPtr(c)
    ensures Get(h.mem, s.node).left != null && Lists(TurnLeft(repaired, h, s.node), Inorder(Plug(c, s)))
  {
    hide TurnLeft, LeftRotation;
    LeftTurnAt(repaired, h, c, s);
    var r := TurnLeft(repaired, h, s.node);
    LeftRotatedTree(repaired, h.root, h.mem, r.root, r.mem, c, s);
    RotatedSeparate(c, s);
    RotateInorder(s.left.left, s.left.node, s.left.right, s.node, s.right);
    PlugInorder(c, s, RotatedLeft(s));
    Unfocus(r, c, RotatedLeft(s));
  }

  lemma MoveRightChildren(repaired: bool, m: Mem, node: TreeNode, child: TreeNode)
    ensures var r := MoveRight(repaired, m, node, child);
      m.Keys <= r.Keys && forall k: TreeNode :: k != node ==> Get(r, k).left == Get(m, k).left && Get(r, k).right == Get(m, k).right
  {
  }

  /** What a rotation to the left leaves of the links to `n`, if the parent link of `n` leads elsewhere. */
  lemma TurnLeftDoubles(repaired: bool, h: Image, n: TreeNode, l: TreeNode, up: TreeNode?)
    requires Get(h.mem, n).left == l && l != n && Get(h.mem, n).parent != up
    requires if up == null then h.root == n else up != n && up != l && IsChild(h.mem, up, n)
    ensures var q, h' := Get(h.mem, n).parent, TurnLeft(repaired, h, n);
      if q == l then IsChild(h'.mem, l, l)
      else IsChild(h'.mem, l, n) && if up == null then h'.root == n else IsChild(h'.mem, up, n)
    ensures h.mem.Keys <= TurnLeft(repaired, h, n).mem.Keys
  {
    hide MoveRight, Promote, HookUp, WithColor, WithParent;
    var m := WithRight(MoveRight(repaired, h.mem, n, l), l, n);
    MoveRightChildren(repaired, h.mem, n, l);
    PromoteChildren(h.root, m, Get(h.mem, n).parent, n, l);
  }

  /** At any other node the rotated node gets a second parent, or a node becomes its own child. */
  lemma TurnLeftFalse(repaired: bool, h: Image, c: Ctx, s: Shape)
    requires Seen(h, c, s) && s.left.Fork? && Get(h.mem, s.node).parent != ParentPtr(c)
    ensures Get(h.mem, s.node).left != null && !IsTree(TurnLeft(repaired, h, s.node))
  {
    hide TurnLeft, IsTree, IsChild;
    var n, l := s.node, s.left.node;
    ParentSeen(h, c, s);
    TurnLeftDoubles(repaired, h, n, l, ParentPtr(c));
    var h' := TurnLeft(repaired, h, n);
    if IsTree(h') {
      if Get(h.mem, n).parent == l {
        OwnChild(h', l);
      } else {
        OnlyParent(h', l, if c.Top? then l else c.node, n);
      }
    }
  }

  lemma TurnLeftTree(repaired: bool, h: Image, ns: seq<TreeNode>, n: TreeNode)
    requires Lists(h, ns) && n in h.mem && Get(h.mem, n).left != null
    ensures IsTree(TurnLeft(repaired, h, n)) <==> Named(h, n)
    ensures Named(h, n) ==> Lists(TurnLeft(repaired, h, n), ns)
  {
    hide TurnLeft, Lists, IsTree, Named;
    var c, s := FocusOn(h, ns, n);
    NamedMeans(h, c, s);
    if Named(h, n) {
      TurnLeftTrue(repaired, h, c, s);
      ListsTree(TurnLeft(repaired, h, n), ns);
    } else {
      TurnLeftFalse(repaired, h, c, s);
    }
  }

  lemma OwnChild(h: Image, n: TreeNode)
    requires n in h.mem && IsChild(h.mem, n, n)
    ensures !IsTree(h)
  {
    if IsTree(h) {
      var c, s := Focus(h, n);
      PtrInside(s.left);
      PtrInside(s.right);
    }
  }

  // ---------- the fixup ----------

  /** What may be asked of a rotation: the memory before, the node, the memory after. */
  type Test = (Image, TreeNode, Image) -> bool

  function AtNamed(): Test {
    (before: Image, n: TreeNode, after: Image) => Named(before, n)
  }

  ghost function LeavesTree(): Test {
    (before: Image, n: TreeNode, after: Image) => IsTree(after)
  }

  predicate LeftTurnsPass(test: Test, repaired: bool, h: Image, node: TreeNode, p: TreeNode, gp: TreeNode) {
    var h1 := if Get(h.mem, p).right == node then TurnRight(repaired, h, p) else h;
    && (Get(h.mem, p).right == node ==> test(h, p, h1))
    && (Get(h1.mem, gp).left != null ==> test(h1, gp, TurnLeft(repaired, h1, gp)))
  }

  predicate RightTurnsPass(test: Test, repaired: bool, h: Image, node: TreeNode, p: TreeNode, gp: TreeNode) {
    var h1 := if Get(h.mem, p).left == node then TurnLeft(repaired, h, p) else h;
    && (Get(h.mem, p).left == node ==> test(h, p, h1))
    && (Get(h1.mem, gp).right != null ==> test(h1, gp, TurnRight(repaired, h1, gp)))
  }

  /** The rotations of one iteration pass the test. */
  predicate TurnsPass(test: Test, repaired: bool, h: Image, node: TreeNode) {
    var p := Get(h.mem, node).parent;
    p == null || Get(h.mem, p).parent == null ||
    var gp: TreeNode := Get(h.mem, p).parent;
    var uncle := UncleIn(h.mem, p, gp);
    (uncle != null && Get(h.mem, uncle).color == Red) ||
    if Get(h.mem, gp).left == p then LeftTurnsPass(test, repaired, h, node, p, gp) else RightTurnsPass(test, repaired, h, node, p, gp)
  }

  /** All rotations of the loop pass the test, up to its end or to where it follows a null pointer. */
  predicate EveryTurn(test: Test, repaired: bool, h: Image, node: TreeNode, rounds: nat)
    decreases rounds
  {
    Loops(h.mem, node) && rounds > 0 ==>
      var r := Iterate(repaired, h, node);
      TurnsPass(test, repaired, h, node) && (r.Ended? ==> EveryTurn(test, repaired, r.value.0, r.value.1, rounds - 1))
  }

  /** The same nodes in the same order, and no pointer leaves them. */
  ghost predicate Stays(h: Image, h': Image, ns: seq<TreeNode>) {
    h'.mem.Keys == h.mem.Keys && SelfContained(h') && Lists(h', ns)
  }

  lemma LeftTurnsKeep(repaired: bool, h: Image, ns: seq<TreeNode>, node: TreeNode, p: TreeNode, gp: TreeNode)
    requires SelfContained(h) && Lists(h, ns) && p in h.mem && gp in h.mem
    ensures LeftTurnsPass(LeavesTree(), repaired, h, node, p, gp) <==> LeftTurnsPass(AtNamed(), repaired, h, node, p, gp)
    ensures var r := TurnsLeft(repaired, h, node, p, gp);
      LeftTurnsPass(AtNamed(), repaired, h, node, p, gp) && r.Ended? ==> Stays(h, r.value, ns)
  {
    hide TurnLeft, TurnRight, Lists, IsTree, Named, SelfContained;
    var h1 := h;
    if Get(h.mem, p).right == node {
      TurnRightTree(repaired, h, ns, p);
      TurnRightClosed(repaired, h, p);
      h1 := TurnRight(repaired, h, p);
    }
    if Lists(h1, ns) && Get(h1.mem, gp).left != null {
      TurnLeftTree(repaired, h1, ns, gp);
      TurnLeftClosed(repaired, h1, gp);
    }
  }

  lemma RightTurnsKeep(repaired: bool, h: Image, ns: seq<TreeNode>, node: TreeNode, p: TreeNode, gp: TreeNode)
    requires SelfContained(h) && Lists(h, ns) && p in h.mem && gp in h.mem
    ensures RightTurnsPass(LeavesTree(), repaired, h, node, p, gp) <==> RightTurnsPass(AtNamed(), repaired, h, node, p, gp)
    ensures var r := TurnsRight(repaired, h, node, p, gp);
      RightTurnsPass(AtNamed(), repaired, h, node, p, gp) && r.Ended? ==> Stays(h, r.value, ns)
  {
    hide TurnLeft, TurnRight, Lists, IsTree, Named, SelfContained;
    var h1 := h;
    if Get(h.mem, p).left == node {
      TurnLeftTree(repaired, h, ns, p);
      TurnLeftClosed(repaired, h, p);
      h1 := TurnLeft(repaired, h, p);
    }
    if Lists(h1, ns) && Get(h1.mem, gp).right != null {
      TurnRightTree(repaired, h1, ns, gp);
      TurnRightClosed(repaired, h1, gp);
    }
  }

  /** Colours do not matter. */
  lemma PaintKeeps(h: Image, ns: seq<TreeNode>, n: TreeNode, color: Color)
    requires SelfContained(h) && Lists(h, ns) && n in h.mem
    ensures Stays(h, Image(h.root, WithColor(h.mem, n, color)), ns)
    ensures h.root == n ==> TreeIn(Image(h.root, WithColor(h.mem, n, color))).Fork? && TreeIn(Image(h.root, WithColor(h.mem, n, color))).color == color
  {
    var c, s := FocusOn(h, ns, n);
    var h' := Image(h.root, WithColor(h.mem, n, color));
    WritesClosed(h.mem, n, null, color);
    PaintedTree(h.root, h.mem, c, s, color);
    PlugInorder(c, s, s.(color := color));
    Unfocus(h', c, s.(color := color));
    HoldsMeans(h', TreeIn(h'));
  }

  lemma Paint3Keeps(h: Image, ns: seq<TreeNode>, p: TreeNode, uncle: TreeNode, gp: TreeNode)
    requires SelfContained(h) && Lists(h, ns) && p in h.mem && uncle in h.mem && gp in h.mem
    ensures Stays(h, Image(h.root, Paint3(h.mem, p, uncle, gp)), ns)
  {
    hide Lists, SelfContained, WithColor;
    PaintKeeps(h, ns, p, Black);
    var h1 := Image(h.root, WithColor(h.mem, p, Black));
    PaintKeeps(h1, ns, uncle, Black);
    PaintKeeps(Image(h.root, WithColor(h1.mem, uncle, Black)), ns, gp, Red);
  }

  /** One iteration leaves a tree behind after each rotation exactly if it rotates at nodes only that name their parents. */
  lemma IterationKeeps(repaired: bool, h: Image, ns: seq<TreeNode>, node: TreeNode)
    requires SelfContained(h) && Lists(h, ns) && node in h.mem && Loops(h.mem, node)
    ensures TurnsPass(LeavesTree(), repaired, h, node) <==> TurnsPass(AtNamed(), repaired, h, node)
    ensures var r := Iterate(repaired, h, node);
      TurnsPass(AtNamed(), repaired, h, node) && r.Ended? ==> Stays(h, r.value.0, ns) && r.value.1 in h.mem
  {
    hide Lists, LeftTurnsPass, RightTurnsPass, TurnsLeft, TurnsRight, Paint3;
    var p := Get(h.mem, node).parent;
    if Get(h.mem, p).parent != null {
      var gp: TreeNode := Get(h.mem, p).parent;
      var uncle := UncleIn(h.mem, p, gp);
      if uncle != null && Get(h.mem, uncle).color == Red {
        Paint3Keeps(h, ns, p, uncle, gp);
      } else if Get(h.mem, gp).left == p {
        LeftTurnsKeep(repaired, h, ns, node, p, gp);
      } else {
        RightTurnsKeep(repaired, h, ns, node, p, gp);
      }
    }
  }

  /**
   * The fixup on any memory that holds a tree: it holds one after every rotation exactly if every
   * rotation is at a node that names its parent, and then the nodes and their order stay.
   */
  lemma {:induction false} FixKeeps(repaired: bool, h: Image, ns: seq<TreeNode>, node: TreeNode, rounds: nat)
    requires SelfContained(h) && Lists(h, ns) && node in h.mem
    ensures EveryTurn(LeavesTree(), repaired, h, node, rounds) <==> EveryTurn(AtNamed(), repaired, h, node, rounds)
    ensures var r := FixMem(repaired, h, node, rounds);
      EveryTurn(AtNamed(), repaired, h, node, rounds) && r.Ended? ==>
        Stays(h, r.value, ns) && TreeIn(r.value).Fork? && TreeIn(r.value).color == Black
    decreases rounds
  {
    hide Lists, SelfContained, TurnsPass, Iterate, TreeIn;
    if Loops(h.mem, node) && rounds > 0 {
      IterationKeeps(repaired, h, ns, node);
      var r := Iterate(repaired, h, node);
      if TurnsPass(AtNamed(), repaired, h, node) && r.Ended? {
        FixKeeps(repaired, r.value.0, ns, r.value.1, rounds - 1);
      }
    } else if h.root != null {
      RootInside(h);
      PaintKeeps(h, ns, h.root, Black);
    }
  }

  lemma RootInside(h: Image)
    requires SelfContained(h) && h.root != null
    ensures h.root in h.mem
  {
  }

  // ---------- insertion ----------

  /** All rotations of an insertion pass the test. */
  predicate InsertTurns(test: Test, repaired: bool, h: Image, node: TreeNode) {
    var place := Find(h, node.key);
    place.Some? && place.value.node == null ==>
      EveryTurn(test, repaired, Hang(h, node, place.value.parent, place.value.onLeft), node, |h.mem| + 1)
  }

  /** A search tree of all nodes with a black root, out of which no pointer leads. */
  ghost predicate InOrder(h: Image) {
    SelfContained(h) && IsTree(h) && TreeOf(false, h.root, h.mem, TreeIn(h))
  }

  /** The insertion ends, follows no null pointer, and rotates at nodes only that name their parents. */
  predicate InsertsSteady(repaired: bool, h: Image, node: TreeNode) {
    InsertMem(repaired, h, node).Ended? && InsertTurns(AtNamed(), repaired, h, node)
  }

  lemma HangKeeps(h: Image, node: TreeNode, c: Ctx)
    requires InOrder(h) && node !in h.mem && Locate(TreeIn(h), node.key) == (c, Leaf)
    ensures var h' := Hang(h, node, ParentPtr(c), c.InLeft?);
      && h'.mem.Keys == h.mem.Keys + {node} && SelfContained(h') && Lists(h', Before(c) + [node] + Behind(c))
    ensures Sorted(Before(c) + [node] + Behind(c))
  {
    SlotFound(false, h.root, h.mem, TreeIn(h), c, node.key);
    HangIs(h, c, node);
    var h' := Hang(h, node, ParentPtr(c), c.InLeft?);
    HangClosed(h, node, ParentPtr(c), c.InLeft?);
    HungAt(h.root, h.mem, h'.root, h'.mem, c, node);
    InorderPlug(c, Fork(Leaf, node, Red, Leaf));
    InorderSingle(node);
    Unfocus(h', c, Fork(Leaf, node, Red, Leaf));
    SlotOrder(TreeIn(h), node.key);
    SortedInsert(Before(c), node, Behind(c));
  }

  lemma BlackInOrder(h: Image, ns: seq<TreeNode>)
    requires SelfContained(h) && Lists(h, ns) && Sorted(ns) && TreeIn(h).Fork? && TreeIn(h).color == Black
    ensures InOrder(h)
  {
    HoldsMeans(h, TreeIn(h));
  }

  /** The nodes of the memory after inserting `node`. */
  ghost function NodesWith(h: Image, node: TreeNode): set<TreeNode> {
    h.mem.Keys + if Find(h, node.key).Some? && Find(h, node.key).value.node == null then {node} else {}
  }

  /** An insertion leaves a tree behind after every rotation exactly if it rotates at nodes only that name their parents. */
  lemma InsertKeeps(repaired: bool, h: Image, node: TreeNode)
    requires InOrder(h) && node !in h.mem
    ensures InsertTurns(LeavesTree(), repaired, h, node) <==> InsertTurns(AtNamed(), repaired, h, node)
    ensures var r := InsertMem(repaired, h, node);
      InsertTurns(AtNamed(), repaired, h, node) && r.Ended? ==> InOrder(r.value) && r.value.mem.Keys == NodesWith(h, node)
  {
    hide InOrder, EveryTurn, FixMem, Find, InsertMem, Hang, Locate, TreeOf, SelfContained, IsTree, TreeIn;
    var t := TreeFor(h, node.key);
    InsertIs(repaired, h, node, PlaceOf(t.0, t.1));
    if t.1.Leaf? {
      InsertNewKeeps(repaired, h, node, t.0);
    }
  }

  lemma TreeFor(h: Image, key: string) returns (place: (Ctx, Shape))
    requires InOrder(h)
    ensures IsTree(h) && place == Locate(TreeIn(h), key) && Find(h, key) == Some(PlaceOf(place.0, place.1))
  {
    place := Locate(TreeIn(h), key);
    FindRefines(false, h, TreeIn(h), key);
  }

  lemma InsertNewKeeps(repaired: bool, h: Image, node: TreeNode, c: Ctx)
    requires InOrder(h) && node !in h.mem && Locate(TreeIn(h), node.key) == (c, Leaf)
    ensures var h', rounds := Hang(h, node, ParentPtr(c), c.InLeft?), |h.mem| + 1;
      && (EveryTurn(LeavesTree(), repaired, h', node, rounds) <==> EveryTurn(AtNamed(), repaired, h', node, rounds))
      && var r := FixMem(repaired, h', node, rounds);
         EveryTurn(AtNamed(), repaired, h', node, rounds) && r.Ended? ==> InOrder(r.value) && r.value.mem.Keys == h.mem.Keys + {node}
  {
    hide EveryTurn, FixMem, Hang, Lists, SelfContained, TreeOf, IsTree, TreeIn, Locate;
    HangKeeps(h, node, c);
    var h', ns := Hang(h, node, ParentPtr(c), c.InLeft?), Before(c) + [node] + Behind(c);
    FixKeeps(repaired, h', ns, node, |h.mem| + 1);
    var r := FixMem(repaired, h', node, |h.mem| + 1);
    if EveryTurn(AtNamed(), repaired, h', node, |h.mem| + 1) && r.Ended? {
      BlackInOrder(r.value, ns);
    }
  }

  lemma FindExactIn(h: Image, t: Shape, key: string)
    requires TreeOf(false, h.root, h.mem, t)
    ensures Find(h, key).Some?
    ensures var p := Find(h, key).value.node;
      if p == null then forall n <- h.mem.Keys :: n.key != key else p in h.mem && p.key == key
  {
    hide Find, At, Locate, Sorted, Nodes, Inorder, LinksTrue;
    FindRefines(false, h, t, key);
    LocateExact(t, key);
    SeparateInorder(t);
    var s := Locate(t, key).1;
    assert Find(h, key).value.node == Ptr(s);
    assert s.Fork? ==> s.node in Inorder(t);
  }

  /** In such a memory the search ends, and at the node that has the key, if there is one. */
  lemma FindExact(h: Image, key: string)
    requires InOrder(h)
    ensures Find(h, key).Some?
    ensures var p := Find(h, key).value.node;
      if p == null then forall n <- h.mem.Keys :: n.key != key else p in h.mem && p.key == key
  {
    hide TreeOf, Find, SelfContained;
    FindExactIn(h, TreeIn(h), key);
  }

  // ---------- truthful search paths ----------

  lemma FixNamed(h: Image, c: Ctx, t: Shape)
    requires FixState(h.root, h.mem, c, t) && CtxNodes(c) + Nodes(t) == h.mem.Keys
    ensures Named(h, t.node)
  {
    ParentSeen(h, c, t);
  }

  lemma RightBranchNamed(repaired: bool, h: Image, c: Ctx, t: Shape)
    requires FixState(h.root, h.mem, c, t) && CtxNodes(c) + Nodes(t) == h.mem.Keys && !c.Top? && !c.up.Top? && c.InLeft?
    ensures Get(h.mem, c.node).left == t.node
    ensures Named(h, c.node) && Named(TurnLeft(repaired, h, c.node), c.up.node)
  {
    hide TurnLeft, Named, LeftRotation;
    ToParent(h.root, h.mem, c, t);
    FixNamed(h, c.up, Around(c, t));
    LeftTurnAt(repaired, h, c.up, Around(c, t));
    var h1 := TurnLeft(repaired, h, c.node);
    LeftToGrandparent(repaired, h.root, h.mem, h1.root, h1.mem, c, t);
    FixNamed(h1, c.up.up, Around(c.up, RotatedLeft(Around(c, t))));
  }

  lemma LeftBranchNamed(repaired: bool, h: Image, c: Ctx, t: Shape)
    requires FixState(h.root, h.mem, c, t) && CtxNodes(c) + Nodes(t) == h.mem.Keys && !c.Top? && !c.up.Top? && c.InRight?
    ensures Get(h.mem, c.node).right == t.node
    ensures Named(h, c.node) && Named(TurnRight(repaired, h, c.node), c.up.node)
  {
    hide TurnRight, Named, RightRotation;
    ToParent(h.root, h.mem, c, t);
    FixNamed(h, c.up, Around(c, t));
    RightTurnAt(repaired, h, c.up, Around(c, t));
    var h1 := TurnRight(repaired, h, c.node);
    RightToGrandparent(repaired, h.root, h.mem, h1.root, h1.mem, c, t);
    FixNamed(h1, c.up.up, Around(c.up, RotatedRight(Around(c, t))));
  }

  lemma GrandparentNamed(h: Image, c: Ctx, t: Shape)
    requires FixState(h.root, h.mem, c, t) && CtxNodes(c) + Nodes(t) == h.mem.Keys && !c.Top? && !c.up.Top?
    ensures Named(h, c.up.node)
  {
    ToGrandparent(h.root, h.mem, c, t);
    FixNamed(h, c.up.up, Around(c.up, Around(c, t)));
  }

  lemma StandsTurns(repaired: bool, known: bool, ok: bool, h: Image, c: Ctx, t: Shape)
    requires StandsAt(repaired, known, ok, h, c, t) && Unbalanced(c)
    ensures TurnsPass(AtNamed(), repaired, h, t.node)
  {
    hide TurnRight, TurnLeft, Named, LinkStatus, FixState, At, SeparateAt;
    assert FixState(h.root, h.mem, c, t);
    Family(h.root, h.mem, c, t);
    GrandparentNamed(h, c, t);
    if c.InLeft? {
      RightBranchNamed(repaired, h, c, t);
    } else {
      LeftBranchNamed(repaired, h, c, t);
    }
  }

  /** Where the links on the way up are truthful the fixup rotates at nodes only that name their parents. */
  lemma {:induction false} StandsEveryTurn(repaired: bool, known: bool, ok: bool, h: Image, c: Ctx, t: Shape, rounds: nat)
    requires StandsAt(repaired, known, ok, h, c, t)
    ensures EveryTurn(AtNamed(), repaired, h, t.node, rounds)
    decreases rounds
  {
    hide StandsAt, Standing, TurnsPass, Iterate, MovesEmpty;
    GuardAt(repaired, known, ok, h, c, t);
    if Unbalanced(c) && rounds > 0 {
      StandsTurns(repaired, known, ok, h, c, t);
      Iterates(repaired, known, ok, h, c, t);
      StandsEveryTurn(repaired, known, ok && (repaired || MovesEmpty(c, t)), Iterate(repaired, h, t.node).value.0, Step(c, t).0, Step(c, t).1, rounds - 1);
    }
  }

  /** So does an insertion on a truthful search path, and with the repair every insertion. */
  lemma WholeTurns(repaired: bool, h: Image, shape: Shape, node: TreeNode)
    requires TreeOf(repaired, h.root, h.mem, shape) && node !in h.mem
    requires repaired || WholePath(h.mem, shape, node.key)
    ensures InsertTurns(AtNamed(), repaired, h, node)
  {
    hide TreeOf, Find, Hang, StandsAt, EveryTurn, Locate, PathLinks, LinksTrue, SameParents, Depth, BlackRoot;
    FindRefines(repaired, h, shape, node.key);
    var (c, t) := Locate(shape, node.key);
    if t.Leaf? {
      HangRefines(repaired, h, shape, node, c);
      StandsEveryTurn(repaired, LinksTrue(h.root, h.mem), true, Hang(h, node, ParentPtr(c), c.InLeft?), c, Fork(Leaf, node, Red, Leaf), |h.mem| + 1);
    }
  }
}
