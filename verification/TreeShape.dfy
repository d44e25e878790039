/**
 * The coloured search tree of common/src/tree.c as a value.
 *
 * A `Shape` records which node hangs where and in which colour; a `Ctx` is the rest of a tree
 * around one position in it, read from that position up to the root. `Step` is one iteration
 * of the loop in `fix_after_insert`, and `Fix` the whole loop.
 */
module TreeShape {
  import opened Rings
  import opened CString

  datatype Color = Red | Black

  type Value = int  // an opaque pointer: only stored and handed back

  class TreeNode {
    const key: string
    var value: Value
    var parent: TreeNode?
    var left: TreeNode?
    var right: TreeNode?
    var color: Color
    const list: Link<TreeNode?>

    // make_tree_node
    constructor (key: string, value: Value)
      requires |key| < 128
      ensures this.key == key && this.value == value
      ensures parent == left == right == null && color == Black
      ensures fresh(list) && list.item == this && IsRing([list])
    {
      this.key := key;
      this.value := value;
      parent, left, right, color := null, null, null, Black;
      list := new Link<TreeNode?>(null);
      new;
      list.item := this;
    }
  }

  datatype Shape = Leaf | Fork(left: Shape, node: TreeNode, color: Color, right: Shape)

  datatype Ctx = Top
               | InLeft(up: Ctx, node: TreeNode, color: Color, right: Shape)
               | InRight(up: Ctx, left: Shape, node: TreeNode, color: Color)

  function Plug(c: Ctx, t: Shape): Shape {
    match c
    case Top => t
    case InLeft(up, p, pc, s) => Plug(up, Fork(t, p, pc, s))
    case InRight(up, s, p, pc) => Plug(up, Fork(s, p, pc, t))
  }

  function Depth(c: Ctx): nat {
    match c
    case Top => 0
    case InLeft(up, _, _, _) => 1 + Depth(up)
    case InRight(up, _, _, _) => 1 + Depth(up)
  }

  function Inorder(t: Shape): seq<TreeNode> {
    match t
    case Leaf => []
    case Fork(l, n, _, r) => Inorder(l) + [n] + Inorder(r)
  }

  /** The nodes left of the position of `c`, in key order. */
  function Before(c: Ctx): seq<TreeNode> {
    match c
    case Top => []
    case InLeft(up, _, _, _) => Before(up)
    case InRight(up, s, p, _) => Before(up) + (Inorder(s) + [p])
  }

  /** The nodes right of the position of `c`, in key order. */
  function Behind(c: Ctx): seq<TreeNode> {
    match c
    case Top => []
    case InLeft(up, p, _, s) => ([p] + Inorder(s)) + Behind(up)
    case InRight(up, _, _, _) => Behind(up)
  }

  predicate IsRed(t: Shape) {
    t.Fork? && t.color == Red
  }

  function Blacken(t: Shape): (r: Shape)
    ensures Inorder(r) == Inorder(t)
  {
    match t
    case Leaf => Leaf
    case Fork(l, n, _, r) => Fork(l, n, Black, r)
  }

  // ---------- fix_after_insert ----------

  /** The loop guard: there is a parent and it is red. */
  predicate Unbalanced(c: Ctx) {
    !c.Top? && c.color == Red
  }

  /** The root is black, unless the position of `c` is the root itself. */
  predicate BlackRoot(c: Ctx) {
    match c
    case Top => true
    case InLeft(up, _, pc, _) => if up.Top? then pc == Black else BlackRoot(up)
    case InRight(up, _, _, pc) => if up.Top? then pc == Black else BlackRoot(up)
  }

  /** One iteration: the position of `node` afterwards and the subtree hanging there. */
  function Step(c: Ctx, t: Shape): (r: (Ctx, Shape))
    requires t.Fork? && Unbalanced(c) && BlackRoot(c)
    ensures r.1.Fork?
  {
    match c
    case InLeft(InLeft(up, g, gc, u), p, _, s) =>
      if IsRed(u) then (up, Fork(Fork(t, p, Black, s), g, Red, Blacken(u)))
      else (InLeft(up, p, gc, Fork(s, g, Red, u)), t)
    case InRight(InLeft(up, g, gc, u), s, p, _) =>
      if IsRed(u) then (up, Fork(Fork(s, p, Black, t), g, Red, Blacken(u)))
      else (up, Fork(Fork(s, p, Red, t.left), t.node, gc, Fork(t.right, g, Red, u)))
    case InRight(InRight(up, u, g, gc), s, p, _) =>
      if IsRed(u) then (up, Fork(Blacken(u), g, Red, Fork(s, p, Black, t)))
      else (InRight(up, Fork(u, g, Red, s), p, gc), t)
    case InLeft(InRight(up, u, g, gc), p, _, s) =>
      if IsRed(u) then (up, Fork(Blacken(u), g, Red, Fork(t, p, Black, s)))
      else (up, Fork(Fork(u, g, Red, t.left), t.node, gc, Fork(t.right, p, Red, s)))
  }

  /** How far up one iteration moves: by 2 on recolouring and on a double rotation, else by 1. */
  lemma StepClimbs(c: Ctx, t: Shape)
    requires t.Fork? && Unbalanced(c) && BlackRoot(c)
    ensures Depth(c) >= 2
    ensures Depth(Step(c, t).0) == Depth(c) - if IsRed(Uncle(c)) || c.InLeft? != c.up.InLeft? then 2 else 1
    ensures BlackRoot(Step(c, t).0)
  {
  }

  /** get_uncle: the other child of the grandparent. */
  function Uncle(c: Ctx): Shape
    requires !c.Top? && !c.up.Top?
  {
    if c.up.InLeft? then c.up.right else c.up.left
  }

  /** The whole loop and the blackening of the root after it. */
  function Fix(c: Ctx, t: Shape): (r: Shape)
    requires t.Fork? && BlackRoot(c)
    decreases Depth(c)
  {
    if Unbalanced(c) then
      StepClimbs(c, t);
      Fix(Step(c, t).0, Step(c, t).1)
    else Blacken(Plug(c, t))
  }

  lemma {:induction false} InorderPlug(c: Ctx, t: Shape)
    ensures Inorder(Plug(c, t)) == Before(c) + Inorder(t) + Behind(c)
  {
    match c
    case Top =>
    case InLeft(up, p, pc, s) =>
      InorderPlug(up, Fork(t, p, pc, s));
    case InRight(up, s, p, pc) =>
      InorderPlug(up, Fork(s, p, pc, t));
  }

  /** A rotation keeps the key order. */
  lemma RotateInorder(a: Shape, p: TreeNode, b: Shape, g: TreeNode, d: Shape)
    ensures forall c0, c1, c2, c3 :: Inorder(Fork(Fork(a, p, c0, b), g, c1, d)) == Inorder(Fork(a, p, c2, Fork(b, g, c3, d)))
  {
    var A, B, D := Inorder(a), Inorder(b), Inorder(d);
    assert (A + [p] + B) + [g] + D == A + [p] + (B + [g] + D);
  }

  lemma PlugInorder(c: Ctx, t: Shape, t': Shape)
    requires Inorder(t) == Inorder(t')
    ensures Inorder(Plug(c, t)) == Inorder(Plug(c, t'))
  {
    InorderPlug(c, t);
    InorderPlug(c, t');
  }

  lemma StepInorder(c: Ctx, t: Shape)
    requires t.Fork? && Unbalanced(c) && BlackRoot(c)
    ensures Inorder(Plug(Step(c, t).0, Step(c, t).1)) == Inorder(Plug(c, t))
  {
    var up := c.up.up;
    match c {
      case InLeft(InLeft(_, g, gc, u), p, pc, s) =>
        RotateInorder(t, p, s, g, u);
        PlugInorder(up, Fork(Fork(t, p, pc, s), g, gc, u),
                    if IsRed(u) then Step(c, t).1 else Fork(t, p, gc, Fork(s, g, Red, u)));
      case InRight(InLeft(_, g, gc, u), s, p, pc) =>
        RotateInorder(s, p, t.left, t.node, t.right);
        RotateInorder(Fork(s, p, Red, t.left), t.node, t.right, g, u);
        assert Inorder(Fork(Fork(s, p, Red, t.left), t.node, Red, t.right)) == Inorder(Fork(s, p, pc, t));
        assert Inorder(Fork(Fork(Fork(s, p, Red, t.left), t.node, Red, t.right), g, gc, u)) == Inorder(Fork(Fork(s, p, pc, t), g, gc, u));
        PlugInorder(up, Fork(Fork(s, p, pc, t), g, gc, u), Step(c, t).1);
      case InRight(InRight(_, u, g, gc), s, p, pc) =>
        RotateInorder(u, g, s, p, t);
        PlugInorder(up, Fork(u, g, gc, Fork(s, p, pc, t)),
                    if IsRed(u) then Step(c, t).1 else Fork(Fork(u, g, Red, s), p, gc, t));
      case InLeft(InRight(_, u, g, gc), p, pc, s) =>
        RotateInorder(t.left, t.node, t.right, p, s);
        RotateInorder(u, g, t.left, t.node, Fork(t.right, p, Red, s));
        assert Inorder(Fork(t.left, t.node, Red, Fork(t.right, p, Red, s))) == Inorder(Fork(t, p, pc, s));
        assert Inorder(Fork(u, g, gc, Fork(t.left, t.node, Red, Fork(t.right, p, Red, s)))) == Inorder(Fork(u, g, gc, Fork(t, p, pc, s)));
        PlugInorder(up, Fork(u, g, gc, Fork(t, p, pc, s)), Step(c, t).1);
    }
  }

  /** The fixup never changes which nodes are in the tree or their key order, and leaves a black root. */
  lemma {:induction false} FixInorder(c: Ctx, t: Shape)
    requires t.Fork? && BlackRoot(c)
    ensures Inorder(Fix(c, t)) == Inorder(Plug(c, t))
    ensures Fix(c, t).Fork? && Fix(c, t).color == Black
    decreases Depth(c)
  {
    if Unbalanced(c) {
      StepClimbs(c, t);
      StepInorder(c, t);
      FixInorder(Step(c, t).0, Step(c, t).1);
    } else {
      InorderPlug(c, t);
      assert |Inorder(Plug(c, t))| > 0;
    }
  }

  // ---------- search ----------

  ghost predicate Sorted(ns: seq<TreeNode>) {
    forall i, j :: 0 <= i < j < |ns| ==> Less(ns[i].key, ns[j].key)
  }

  ghost predicate AllBelow(ns: seq<TreeNode>, key: string) {
    forall n :: n in ns ==> Less(n.key, key)
  }

  ghost predicate AllAbove(key: string, ns: seq<TreeNode>) {
    forall n :: n in ns ==> Less(key, n.key)
  }

  /** Walk down from position `c` towards `key`: where the walk ends and what hangs there. */
  function Down(c: Ctx, t: Shape, key: string): (Ctx, Shape)
    decreases t
  {
    match t
    case Leaf => (c, t)
    case Fork(l, n, col, r) =>
      if StrCmp(n.key, key) > 0 then Down(InLeft(c, n, col, r), l, key)
      else if StrCmp(n.key, key) < 0 then Down(InRight(c, l, n, col), r, key)
      else (c, t)
  }

  function Locate(t: Shape, key: string): (Ctx, Shape) {
    Down(Top, t, key)
  }

  lemma {:induction false} DownPlug(c: Ctx, t: Shape, key: string)
    requires BlackRoot(c) && (c.Top? ==> !IsRed(t))
    ensures Plug(Down(c, t, key).0, Down(c, t, key).1) == Plug(c, t)
    ensures BlackRoot(Down(c, t, key).0)
    decreases t
  {
    if t.Fork? {
      if StrCmp(t.node.key, key) > 0 {
        DownPlug(InLeft(c, t.node, t.color, t.right), t.left, key);
      } else if StrCmp(t.node.key, key) < 0 {
        DownPlug(InRight(c, t.left, t.node, t.color), t.right, key);
      }
    }
  }

  lemma SortedAround(a: seq<TreeNode>, n: TreeNode, b: seq<TreeNode>)
    requires Sorted(a + [n] + b)
    ensures Sorted(a) && Sorted(b) && AllBelow(a, n.key) && AllAbove(n.key, b)
  {
    var s := a + [n] + b;
    assert s[|a|] == n;
    assert forall i :: 0 <= i < |a| ==> a[i] == s[i];
    assert forall i :: 0 <= i < |b| ==> b[i] == s[|a| + 1 + i];
  }

  lemma SortedInsert(a: seq<TreeNode>, n: TreeNode, b: seq<TreeNode>)
    requires Sorted(a + b) && AllBelow(a, n.key) && AllAbove(n.key, b)
    ensures Sorted(a + [n] + b)
  {
    var s, o := a + [n] + b, a + b;
    assert forall i :: 0 <= i < |s| && i != |a| ==> s[i] == o[if i < |a| then i else i - 1];
    assert forall i :: 0 <= i < |a| ==> s[i] in a;
    assert forall i :: |a| < i < |s| ==> s[i] in b;
  }

  /** On a sorted tree the walk separates the smaller keys from the larger ones. */
  lemma {:induction false} DownOrder(c: Ctx, t: Shape, key: string)
    requires Sorted(Inorder(t)) && AllBelow(Before(c), key) && AllAbove(key, Behind(c))
    ensures var (c', t') := Down(c, t, key);
      if t'.Fork? then t'.node.key == key else AllBelow(Before(c'), key) && AllAbove(key, Behind(c'))
    decreases t
  {
    if t.Fork? {
      var n := t.node;
      SortedAround(Inorder(t.left), n, Inorder(t.right));
      StrCmpZero(n.key, key);
      StrCmpFlip(key, n.key);
      if StrCmp(n.key, key) > 0 {
        forall m | m in Inorder(t.right) ensures Less(key, m.key) { LessTransitive(key, n.key, m.key); }
        DownOrder(InLeft(c, n, t.color, t.right), t.left, key);
      } else if StrCmp(n.key, key) < 0 {
        forall m | m in Inorder(t.left) ensures Less(m.key, key) { LessTransitive(m.key, n.key, key); }
        DownOrder(InRight(c, t.left, n, t.color), t.right, key);
      }
    }
  }

  /** The search is exact: it ends at a node iff the key is in the tree, and then at a node with that key. */
  lemma LocateExact(t: Shape, key: string)
    requires Sorted(Inorder(t)) && !IsRed(t)
    ensures var (c, s) := Locate(t, key);
      && (s.Fork? <==> exists n :: n in Inorder(t) && n.key == key)
      && (s.Fork? ==> s.node in Inorder(t) && s.node.key == key)
  {
    var (c, s) := Locate(t, key);
    DownPlug(Top, t, key);
    DownOrder(Top, t, key);
    InorderPlug(c, s);
    StrCmpZero(key, key);
    if s.Fork? {
      assert s.node in Inorder(s);
    }
  }

  // ---------- insert_tree_node ----------

  /** The tree after linking a node whose key is new. */
  function Inserted(t: Shape, node: TreeNode): Shape
    requires !IsRed(t)
  {
    DownPlug(Top, t, node.key);
    Fix(Locate(t, node.key).0, Fork(Leaf, node, Red, Leaf))
  }

  /** The slot for a new key lies between the smaller and the larger ones. */
  lemma SlotOrder(t: Shape, key: string)
    requires Sorted(Inorder(t)) && !IsRed(t) && Locate(t, key).1.Leaf?
    ensures var c := Locate(t, key).0;
      BlackRoot(c) && Inorder(t) == Before(c) + Behind(c) && AllBelow(Before(c), key) && AllAbove(key, Behind(c))
  {
    hide Down, BlackRoot;
    var c := Locate(t, key).0;
    DownPlug(Top, t, key);
    DownOrder(Top, t, key);
    InorderPlug(c, Leaf);
    assert Before(c) + [] + Behind(c) == Before(c) + Behind(c);
  }

  lemma InorderSingle(node: TreeNode)
    ensures Inorder(Fork(Leaf, node, Red, Leaf)) == [node]
  {
  }

  /** Inserting a new key adds exactly its node, at its place in the key order. */
  lemma InsertedOrder(t: Shape, node: TreeNode)
    requires Sorted(Inorder(t)) && !IsRed(t) && Locate(t, node.key).1.Leaf?
    ensures var c := Locate(t, node.key).0;
      && Inorder(t) == Before(c) + Behind(c)
      && Inorder(Inserted(t, node)) == Before(c) + [node] + Behind(c)
    ensures Sorted(Inorder(Inserted(t, node)))
    ensures Inserted(t, node).Fork? && Inserted(t, node).color == Black
  {
    hide Down, Fix, Before, Behind, Plug, BlackRoot, Inorder, AllBelow, AllAbove, Sorted;
    var c := Locate(t, node.key).0;
    SlotOrder(t, node.key);
    InorderPlug(c, Fork(Leaf, node, Red, Leaf));
    FixInorder(c, Fork(Leaf, node, Red, Leaf));
    InorderSingle(node);
    SortedInsert(Before(c), node, Behind(c));
  }
}
