/**
 * When the tree of common/src/tree.c stays a red-black tree.
 *
 * The loop of `fix_after_insert` goes on whenever the parent of the current node is red, even if
 * that node is black. Recolouring then is needless but harmless, and so is a single rotation; a
 * double rotation of a black node tears the balance.
 */
module RedBlack {
  import opened TreeShape
  import opened TreeFixup

  /** The black nodes on the leftmost way down. */
  function Height(t: Shape): nat {
    match t
    case Leaf => 0
    case Fork(l, _, col, _) => Height(l) + if col == Black then 1 else 0
  }

  /** Every way down meets equally many black nodes. */
  predicate Even(t: Shape) {
    t.Fork? ==> Even(t.left) && Even(t.right) && Height(t.left) == Height(t.right)
  }

  predicate NoRedRed(t: Shape) {
    t.Fork? ==> NoRedRed(t.left) && NoRedRed(t.right) && (t.color == Red ==> !IsRed(t.left) && !IsRed(t.right))
  }

  predicate IsRedBlack(t: Shape) {
    !IsRed(t) && Even(t) && NoRedRed(t)
  }

  /** All is in order around the position of `c` if a tree of height `h` without a red root hangs there. */
  predicate EvenAround(c: Ctx, h: nat) {
    match c
    case Top => true
    case InLeft(up, _, col, s) => Beside(up, col, s, h) && EvenAround(up, h + if col == Black then 1 else 0)
    case InRight(up, s, _, col) => Beside(up, col, s, h) && EvenAround(up, h + if col == Black then 1 else 0)
  }

  predicate Beside(up: Ctx, col: Color, s: Shape, h: nat) {
    Even(s) && NoRedRed(s) && Height(s) == h && (col == Red ==> !IsRed(s) && !Unbalanced(up))
  }

  /** What holds at the loop guard: only the edge to the parent may be red on both ends. */
  predicate Healthy(c: Ctx, t: Shape) {
    BlackRoot(c) && EvenAround(c, Height(t)) && Even(t) && NoRedRed(t)
  }

  lemma {:induction false} PlugBalanced(c: Ctx, t: Shape)
    ensures Even(Plug(c, t)) && NoRedRed(Plug(c, t)) <==>
      EvenAround(c, Height(t)) && Even(t) && NoRedRed(t) && !(Unbalanced(c) && IsRed(t))
  {
    match c
    case Top =>
    case InLeft(up, p, pc, s) => PlugBalanced(up, Fork(t, p, pc, s));
    case InRight(up, s, p, pc) => PlugBalanced(up, Fork(s, p, pc, t));
  }

  /** No iteration is a double rotation of a black node. */
  predicate TurnsRedOnly(c: Ctx, t: Shape)
    requires t.Fork? && BlackRoot(c)
    decreases Depth(c)
  {
    if Unbalanced(c) then
      StepClimbs(c, t);
      !TearsAt(c, t) && TurnsRedOnly(Step(c, t).0, Step(c, t).1)
    else true
  }

  /** The next iteration rotates twice around `t`, which is black. */
  predicate TearsAt(c: Ctx, t: Shape)
    requires t.Fork? && !c.Top? && !c.up.Top?
  {
    t.color == Black && !IsRed(Uncle(c)) && c.InLeft? != c.up.InLeft?
  }

  lemma StepHealthy(c: Ctx, t: Shape)
    requires t.Fork? && Unbalanced(c) && Healthy(c, t) && !c.up.Top? && !TearsAt(c, t)
    ensures Healthy(Step(c, t).0, Step(c, t).1)
  {
    StepClimbs(c, t);
    assert EvenAround(c.up, Height(t));
    match c
    case InLeft(InLeft(up, g, gc, u), p, _, s) => assert Height(Fork(s, g, Red, u)) == Height(t);
    case InRight(InLeft(up, g, gc, u), s, p, _) =>
    case InRight(InRight(up, u, g, gc), s, p, _) => assert Height(Fork(u, g, Red, s)) == Height(t);
    case InLeft(InRight(up, u, g, gc), p, _, s) =>
  }

  /** Below the root of `t` some ways meet more black nodes than others. */
  predicate Torn(t: Shape) {
    t.Fork? && (!Even(t.left) || !Even(t.right))
  }

  lemma StepTears(c: Ctx, t: Shape)
    requires t.Fork? && Unbalanced(c) && Healthy(c, t) && !c.up.Top? && TearsAt(c, t)
    ensures Torn(Step(c, t).1)
  {
  }

  lemma {:induction false} StaysTorn(c: Ctx, t: Shape)
    requires BlackRoot(c) && Torn(t)
    ensures !Even(Fix(c, t))
    decreases Depth(c)
  {
    if Unbalanced(c) {
      StepClimbs(c, t);
      StaysTorn(Step(c, t).0, Step(c, t).1);
    } else {
      PlugUneven(c, t);
    }
  }

  lemma {:induction false} PlugUneven(c: Ctx, t: Shape)
    requires !Even(t)
    ensures !Even(Plug(c, t))
  {
    match c
    case Top =>
    case InLeft(up, p, pc, s) => PlugUneven(up, Fork(t, p, pc, s));
    case InRight(up, s, p, pc) => PlugUneven(up, Fork(s, p, pc, t));
  }

  /** The fixup ends with a red-black tree exactly if it never rotates twice around a black node. */
  lemma {:induction false} FixBalances(c: Ctx, t: Shape)
    requires t.Fork? && Healthy(c, t)
    ensures IsRedBlack(Fix(c, t)) <==> TurnsRedOnly(c, t)
    decreases Depth(c)
  {
    if !Unbalanced(c) {
      PlugBalanced(c, t);
    } else {
      StepClimbs(c, t);
      if TearsAt(c, t) {
        StepTears(c, t);
        StaysTorn(Step(c, t).0, Step(c, t).1);
      } else {
        StepHealthy(c, t);
        FixBalances(Step(c, t).0, Step(c, t).1);
      }
    }
  }

  /** What can be told before an insertion: it will not rotate twice around a black node. */
  predicate KeepsBalance(t: Shape, node: TreeNode)
    requires !IsRed(t)
  {
    DownPlug(Top, t, node.key);
    Locate(t, node.key).1.Fork? || TurnsRedOnly(Locate(t, node.key).0, Fork(Leaf, node, Red, Leaf))
  }

  /** An insertion into a red-black tree leaves one exactly if it never rotates twice around a black node. */
  lemma InsertionBalances(t: Shape, node: TreeNode)
    requires IsRedBlack(t) && Sorted(Inorder(t))
    ensures IsRedBlack(With(t, node)) <==> KeepsBalance(t, node)
  {
    var (c, hole) := Locate(t, node.key);
    DownPlug(Top, t, node.key);
    if hole.Leaf? {
      PlugBalanced(c, Leaf);
      FixBalances(c, Fork(Leaf, node, Red, Leaf));
    }
  }

  /** Over a run of insertions the tree is a red-black tree all the time exactly if none of them does so. */
  lemma {:induction false} RunBalances(ns: seq<TreeNode>)
    ensures (forall i :: 0 <= i <= |ns| ==> IsRedBlack(Grown(ns[..i]))) <==> Balancing(ns)
  {
    if ns == [] {
      assert forall i :: 0 <= i <= |ns| ==> ns[..i] == [];
    } else {
      var r := ns[..|ns| - 1];
      RunBalances(r);
      assert ns[..|ns|] == ns;
      assert forall i :: 0 <= i <= |r| ==> r[..i] == ns[..i];
      if Balancing(r) {
        assert IsRedBlack(Grown(r[..|r|]));
        assert r[..|r|] == r;
        InsertionBalances(Grown(r), ns[|r|]);
      }
    }
  }

  /** None of these insertions rotates twice around a black node. */
  predicate Balancing(ns: seq<TreeNode>) {
    ns == [] || (Balancing(ns[..|ns| - 1]) && KeepsBalance(Grown(ns[..|ns| - 1]), ns[|ns| - 1]))
  }
}
