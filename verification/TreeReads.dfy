/**
 * The parent links that an insertion into the tree of common/src/tree.c reads, and that no others
 * matter: where those are truthful the program does what the functions of `TreeShape` say.
 */
module TreeReads {
  import opened TreeShape
  import opened TreeMemory
  import opened TreeRotation
  import opened TreeLinks
  import opened TreeFixup
  import opened TreeProgram
  import opened TreeRefinement
  import opened TreeOrder

  // ---------- links that are not read ----------

  /** The memories differ in the parent links of `s` at most. */
  ghost predicate Same(m: Mem, m': Mem, s: set<TreeNode>) {
    && m'.Keys == m.Keys
    && forall n <- m.Keys {:trigger Get(m', n)} {:trigger Get(m, n)} ::
         IsCell(m', n, Get(m, n).left, Get(m, n).right, Get(m, n).color) && (n !in s ==> Get(m', n).parent == Get(m, n).parent)
  }

  ghost predicate Alike(h: Image, h': Image, s: set<TreeNode>) {
    h'.root == h.root && Same(h.mem, h'.mem, s)
  }

  lemma SameGet(m: Mem, m': Mem, s: set<TreeNode>, n: TreeNode?)
    requires Same(m, m', s)
    ensures Get(m', n).left == Get(m, n).left && Get(m', n).right == Get(m, n).right && Get(m', n).color == Get(m, n).color
    ensures n !in s ==> Get(m', n).parent == Get(m, n).parent
  {
  }

  lemma WriteSame(m: Mem, m': Mem, s: set<TreeNode>, n: TreeNode, a: Cell, b: Cell)
    requires Same(m, m', s) && a.left == b.left && a.right == b.right && a.color == b.color && (n !in s ==> a.parent == b.parent)
    ensures Same(m[n := a], m'[n := b], s)
  {
    var r, r' := m[n := a], m'[n := b];
    assert r.Keys == m.Keys + {n} && r'.Keys == m'.Keys + {n};
    forall k <- r.Keys
      ensures IsCell(r', k, Get(r, k).left, Get(r, k).right, Get(r, k).color) && (k !in s ==> Get(r', k).parent == Get(r, k).parent)
    {
      assert k != n ==> k in m && Get(r, k) == Get(m, k) && Get(r', k) == Get(m', k);
    }
  }

  lemma WritesSame(m: Mem, m': Mem, s: set<TreeNode>, n: TreeNode, x: TreeNode?, color: Color)
    requires Same(m, m', s)
    ensures Same(WithLeft(m, n, x), WithLeft(m', n, x), s) && Same(WithRight(m, n, x), WithRight(m', n, x), s)
    ensures Same(WithParent(m, n, x), WithParent(m', n, x), s) && Same(WithColor(m, n, color), WithColor(m', n, color), s)
  {
    SameGet(m, m', s, n);
    var a, b := Get(m, n), Get(m', n);
    WriteSame(m, m', s, n, a.(left := x), b.(left := x));
    WriteSame(m, m', s, n, a.(right := x), b.(right := x));
    WriteSame(m, m', s, n, a.(parent := x), b.(parent := x));
    WriteSame(m, m', s, n, a.(color := color), b.(color := color));
  }

  lemma PromoteAlike(root: TreeNode?, m: Mem, m': Mem, s: set<TreeNode>, parent: TreeNode?, node: TreeNode, child: TreeNode)
    requires Same(m, m', s)
    ensures Alike(Promote(root, m, parent, node, child), Promote(root, m', parent, node, child), s)
  {
    hide Same, WithLeft, WithRight, WithParent, WithColor;
    SameGet(m, m', s, node);
    var color := Get(m, node).color;
    WritesSame(m, m', s, child, null, color);
    var m5, m5' := WithColor(m, child, color), WithColor(m', child, color);
    WritesSame(m5, m5', s, child, parent, Red);
    var m6, m6' := WithParent(m5, child, parent), WithParent(m5', child, parent);
    WritesSame(m6, m6', s, node, null, Red);
    var m7, m7' := WithColor(m6, node, Red), WithColor(m6', node, Red);
    if parent != null {
      SameGet(m7, m7', s, parent);
      WritesSame(m7, m7', s, parent, child, Red);
    }
  }

  lemma TurnRightAlike(h: Image, h': Image, s: set<TreeNode>, n: TreeNode)
    requires Alike(h, h', s) && n !in s && Get(h.mem, n).right != null
    ensures Get(h'.mem, n).right != null && Alike(TurnRight(false, h, n), TurnRight(false, h', n), s)
  {
    hide Same, Promote, WithLeft, WithRight, WithParent;
    var m, m' := h.mem, h'.mem;
    SameGet(m, m', s, n);
    var right: TreeNode := Get(m, n).right;
    SameGet(m, m', s, right);
    var inner := Get(m, right).left;
    WritesSame(m, m', s, n, inner, Red);
    WritesSame(WithRight(m, n, inner), WithRight(m', n, inner), s, n, right, Red);
    var m2, m2' := MoveLeft(false, m, n, right), MoveLeft(false, m', n, right);
    WritesSame(m2, m2', s, right, n, Red);
    PromoteAlike(h.root, WithLeft(m2, right, n), WithLeft(m2', right, n), s, Get(m, n).parent, n, right);
  }

  lemma TurnLeftAlike(h: Image, h': Image, s: set<TreeNode>, n: TreeNode)
    requires Alike(h, h', s) && n !in s && Get(h.mem, n).left != null
    ensures Get(h'.mem, n).left != null && Alike(TurnLeft(false, h, n), TurnLeft(false, h', n), s)
  {
    hide Same, Promote, WithLeft, WithRight, WithParent;
    var m, m' := h.mem, h'.mem;
    SameGet(m, m', s, n);
    var left: TreeNode := Get(m, n).left;
    SameGet(m, m', s, left);
    var inner := Get(m, left).right;
    WritesSame(m, m', s, n, inner, Red);
    WritesSame(WithLeft(m, n, inner), WithLeft(m', n, inner), s, n, left, Red);
    var m2, m2' := MoveRight(false, m, n, left), MoveRight(false, m', n, left);
    WritesSame(m2, m2', s, left, n, Red);
    PromoteAlike(h.root, WithRight(m2, left, n), WithRight(m2', left, n), s, Get(m, n).parent, n, left);
  }

  lemma NamedAlike(h: Image, h': Image, s: set<TreeNode>, n: TreeNode)
    requires Alike(h, h', s) && n !in s
    ensures Named(h, n) <==> Named(h', n)
  {
    SameGet(h.mem, h'.mem, s, n);
    SameGet(h.mem, h'.mem, s, Get(h.mem, n).parent);
  }

  lemma TurnsLeftAlike(h: Image, h': Image, s: set<TreeNode>, node: TreeNode, p: TreeNode, gp: TreeNode)
    requires Alike(h, h', s) && p !in s && gp !in s
    ensures var r, r' := TurnsLeft(false, h, node, p, gp), TurnsLeft(false, h', node, p, gp);
      if r'.Ended? then r.Ended? && Alike(r.value, r'.value, s) else r == NullFollowed
    ensures LeftTurnsPass(AtNamed(), false, h, node, p, gp) <==> LeftTurnsPass(AtNamed(), false, h', node, p, gp)
  {
    hide TurnLeft, TurnRight, Same, Named;
    SameGet(h.mem, h'.mem, s, p);
    NamedAlike(h, h', s, p);
    var h1, h1' := h, h';
    if Get(h.mem, p).right == node {
      TurnRightAlike(h, h', s, p);
      h1, h1' := TurnRight(false, h, p), TurnRight(false, h', p);
    }
    SameGet(h1.mem, h1'.mem, s, gp);
    NamedAlike(h1, h1', s, gp);
    if Get(h1.mem, gp).left != null {
      TurnLeftAlike(h1, h1', s, gp);
    }
  }

  lemma TurnsRightAlike(h: Image, h': Image, s: set<TreeNode>, node: TreeNode, p: TreeNode, gp: TreeNode)
    requires Alike(h, h', s) && p !in s && gp !in s
    ensures var r, r' := TurnsRight(false, h, node, p, gp), TurnsRight(false, h', node, p, gp);
      if r'.Ended? then r.Ended? && Alike(r.value, r'.value, s) else r == NullFollowed
    ensures RightTurnsPass(AtNamed(), false, h, node, p, gp) <==> RightTurnsPass(AtNamed(), false, h', node, p, gp)
  {
    hide TurnLeft, TurnRight, Same, Named;
    SameGet(h.mem, h'.mem, s, p);
    NamedAlike(h, h', s, p);
    var h1, h1' := h, h';
    if Get(h.mem, p).left == node {
      TurnLeftAlike(h, h', s, p);
      h1, h1' := TurnLeft(false, h, p), TurnLeft(false, h', p);
    }
    SameGet(h1.mem, h1'.mem, s, gp);
    NamedAlike(h1, h1', s, gp);
    if Get(h1.mem, gp).right != null {
      TurnRightAlike(h1, h1', s, gp);
    }
  }

  /** An iteration that reads no parent link of `s` does not tell the memories apart. */
  lemma IterateAlike(h: Image, h': Image, s: set<TreeNode>, node: TreeNode, p: TreeNode, gp: TreeNode)
    requires Alike(h, h', s) && node !in s && p !in s && gp !in s
    requires Get(h'.mem, node).parent == p && Get(h'.mem, p).parent == gp
    ensures var r, r' := Iterate(false, h, node), Iterate(false, h', node);
      if r'.Ended? then r.Ended? && r.value.1 == r'.value.1 && Alike(r.value.0, r'.value.0, s) else r == NullFollowed
    ensures TurnsPass(AtNamed(), false, h, node) <==> TurnsPass(AtNamed(), false, h', node)
  {
    hide TurnsLeft, TurnsRight, LeftTurnsPass, RightTurnsPass, Same, WithColor;
    SameGet(h.mem, h'.mem, s, node);
    SameGet(h.mem, h'.mem, s, p);
    SameGet(h.mem, h'.mem, s, gp);
    var uncle := UncleIn(h.mem, p, gp);
    SameGet(h.mem, h'.mem, s, uncle);
    if uncle != null && Get(h.mem, uncle).color == Red {
      PaintAlike(h.mem, h'.mem, s, p, uncle, gp);
    } else if Get(h.mem, gp).left == p {
      TurnsLeftAlike(h, h', s, node, p, gp);
    } else {
      TurnsRightAlike(h, h', s, node, p, gp);
    }
  }

  lemma PaintAlike(m: Mem, m': Mem, s: set<TreeNode>, p: TreeNode, uncle: TreeNode, gp: TreeNode)
    requires Same(m, m', s)
    ensures Same(Paint3(m, p, uncle, gp), Paint3(m', p, uncle, gp), s)
  {
    hide Same, WithColor;
    WritesSame(m, m', s, p, null, Black);
    WritesSame(WithColor(m, p, Black), WithColor(m', p, Black), s, uncle, null, Black);
    WritesSame(WithColor(WithColor(m, p, Black), uncle, Black), WithColor(WithColor(m', p, Black), uncle, Black), s, gp, null, Red);
  }

  // ---------- the links that are read ----------

  /** The position after one iteration; what hangs there does not matter. */
  function Onward(c: Ctx): (r: Ctx)
    requires Unbalanced(c) && BlackRoot(c)
    ensures Depth(r) < Depth(c) && BlackRoot(r)
  {
    StepClimbs(c, Fork(Leaf, c.node, Red, Leaf));
    Step(c, Fork(Leaf, c.node, Red, Leaf)).0
  }

  lemma StepOnward(c: Ctx, t: Shape)
    requires t.Fork? && Unbalanced(c) && BlackRoot(c)
    ensures Step(c, t).0 == Onward(c)
  {
  }

  /** The nodes above the position of `c` whose parent links the fixup reads. */
  ghost function Reads(c: Ctx): set<TreeNode>
    decreases Depth(c)
  {
    if Unbalanced(c) && BlackRoot(c) then
      StepClimbs(c, Fork(Leaf, c.node, Red, Leaf));
      {c.node, c.up.node} + Reads(Onward(c))
    else {}
  }

  /** The links of the nodes in `s` on the way up are truthful. */
  ghost predicate LinksOn(m: Mem, c: Ctx, s: set<TreeNode>) {
    !c.Top? ==> (c.node in s ==> Get(m, c.node).parent == ParentPtr(c.up)) && LinksOn(m, c.up, s)
  }

  lemma {:induction false} PathLinksOn(m: Mem, c: Ctx, s: set<TreeNode>)
    requires PathLinks(m, c)
    ensures LinksOn(m, c, s)
  {
    if !c.Top? {
      PathLinksOn(m, c.up, s);
    }
  }

  /** The memory with truthful links all the way up. */
  function Healed(m: Mem, c: Ctx): Mem {
    if c.Top? then m else WithParent(Healed(m, c.up), c.node, ParentPtr(c.up))
  }

  lemma {:induction false} HealedSame(m: Mem, c: Ctx, s: set<TreeNode>)
    requires LinksOn(m, c, s) && CtxNodes(c) <= m.Keys
    ensures Same(m, Healed(m, c), Spine(c) - s)
  {
    if !c.Top? {
      HealedSame(m, c.up, s);
      var m1 := Healed(m, c.up);
      SameMore(m, m1, Spine(c.up) - s, Spine(c) - s);
      SameGet(m, m1, Spine(c.up) - s, c.node);
      HealOne(m, m1, Spine(c) - s, c.node, ParentPtr(c.up));
    }
  }

  lemma SameMore(m: Mem, m': Mem, s: set<TreeNode>, s': set<TreeNode>)
    requires Same(m, m', s) && s <= s'
    ensures Same(m, m', s')
  {
  }

  lemma HealOne(m: Mem, m': Mem, s: set<TreeNode>, n: TreeNode, x: TreeNode?)
    requires Same(m, m', s) && n in m && (n !in s ==> Get(m, n).parent == x)
    ensures Same(m, WithParent(m', n, x), s)
  {
    assert forall k: TreeNode :: k != n ==> Get(WithParent(m', n, x), k) == Get(m', k);
  }

  lemma {:induction false} HealedPath(m: Mem, c: Ctx)
    requires SeparateCtx(c)
    ensures PathLinks(Healed(m, c), c)
  {
    if !c.Top? {
      HealedPath(m, c.up);
      PathLinksFrame(Healed(m, c.up), Healed(m, c), c.up);
    }
  }

  // ---------- the fixup and the insertion ----------

  /** At a position of which `h'` knows all links, and `h` those that are read. */
  ghost predicate StandsNear(known: bool, ok: bool, h: Image, h': Image, s: set<TreeNode>, c: Ctx, t: Shape) {
    StandsAt(false, known, ok, h', c, t) && Alike(h, h', s) && t.Fork? && t.node !in s && Reads(c) !! s
  }

  lemma NextNear(known: bool, ok: bool, h: Image, h': Image, s: set<TreeNode>, c: Ctx, t: Shape)
    requires StandsNear(known, ok, h, h', s, c, t) && Unbalanced(c)
    ensures Loops(h.mem, t.node) && Loops(h'.mem, t.node) && TurnsPass(AtNamed(), false, h, t.node) && BlackRoot(c)
    ensures var r, r' := Iterate(false, h, t.node), Iterate(false, h', t.node);
      && r.Ended? && r'.Ended? && r.value.1 == r'.value.1 == Step(c, t).1.node
      && StandsNear(known, ok && MovesEmpty(c, t), r.value.0, r'.value.0, s, Step(c, t).0, Step(c, t).1)
  {
    hide StandsAt, Same, Iterate, TurnsPass, MovesEmpty, Step;
    GuardAt(false, known, ok, h', c, t);
    SameGet(h.mem, h'.mem, s, t.node);
    SameGet(h.mem, h'.mem, s, Get(h.mem, t.node).parent);
    FamilyAt(known, ok, h', c, t);
    Iterates(false, known, ok, h', c, t);
    StandsTurns(false, known, ok, h', c, t);
    IterateAlike(h, h', s, t.node, c.node, c.up.node);
    StepOnward(c, t);
    StepNode(c, t);
  }

  lemma FamilyAt(known: bool, ok: bool, h: Image, c: Ctx, t: Shape)
    requires StandsAt(false, known, ok, h, c, t) && Unbalanced(c)
    ensures t.Fork? && BlackRoot(c) && !c.up.Top? && Get(h.mem, t.node).parent == c.node && Get(h.mem, c.node).parent == c.up.node
  {
    Family(h.root, h.mem, c, t);
  }

  /** The loop ends as it does on the memory of which all links are known. */
  lemma {:induction false} FixNear(known: bool, ok: bool, h: Image, h': Image, s: set<TreeNode>, c: Ctx, t: Shape, rounds: nat)
    requires StandsNear(known, ok, h, h', s, c, t) && Depth(c) <= rounds
    ensures var r, r' := FixMem(false, h, t.node, rounds), FixMem(false, h', t.node, rounds);
      r.Ended? && r'.Ended? && Alike(r.value, r'.value, s)
    ensures EveryTurn(AtNamed(), false, h, t.node, rounds)
    decreases rounds
  {
    hide StandsAt, Same, Iterate, TurnsPass, MovesEmpty, Step, Reads;
    GuardAt(false, known, ok, h', c, t);
    SameGet(h.mem, h'.mem, s, t.node);
    SameGet(h.mem, h'.mem, s, Get(h.mem, t.node).parent);
    if Unbalanced(c) {
      NextNear(known, ok, h, h', s, c, t);
      StepClimbs(c, t);
      FixNear(known, ok && MovesEmpty(c, t), Iterate(false, h, t.node).value.0, Iterate(false, h', t.node).value.0, s, Step(c, t).0, Step(c, t).1, rounds - 1);
    } else {
      WritesSame(h.mem, h'.mem, s, h.root, null, Black);
    }
  }

  /** The links an insertion relies on: those on the search path that the fixup reads, if the key is new. */
  ghost predicate PathTruthful(m: Mem, shape: Shape, key: string) {
    Locate(shape, key).1.Leaf? ==> LinksOn(m, Locate(shape, key).0, Reads(Locate(shape, key).0))
  }

  lemma PathsTrue(repaired: bool, h: Image, shape: Shape, key: string)
    requires TreeOf(repaired, h.root, h.mem, shape) && LinksTrue(h.root, h.mem)
    ensures PathTruthful(h.mem, shape, key)
  {
    var (c, t) := Locate(shape, key);
    if t.Leaf? {
      SlotFound(repaired, h.root, h.mem, shape, c, key);
      PathLinksOn(h.mem, c, Reads(c));
    }
  }

  lemma HealedTree(h: Image, shape: Shape, c: Ctx, key: string)
    requires TreeOf(false, h.root, h.mem, shape) && Locate(shape, key) == (c, Leaf) && LinksOn(h.mem, c, Reads(c))
    ensures var h' := Image(h.root, Healed(h.mem, c));
      Alike(h, h', Spine(c) - Reads(c)) && TreeOf(false, h'.root, h'.mem, shape) && PathLinks(h'.mem, c)
  {
    SlotFound(false, h.root, h.mem, shape, c, key);
    HealedSame(h.mem, c, Reads(c));
    HealedPath(h.mem, c);
    AlikeTree(h, Image(h.root, Healed(h.mem, c)), Spine(c) - Reads(c), shape);
  }

  /** Parent links do not matter for which tree it is. */
  lemma AlikeTree(h: Image, h': Image, s: set<TreeNode>, shape: Shape)
    requires TreeOf(false, h.root, h.mem, shape) && Alike(h, h', s)
    ensures TreeOf(false, h'.root, h'.mem, shape)
  {
    RepFrame(h.mem, h'.mem, shape);
  }

  lemma HangAlike(h: Image, h': Image, s: set<TreeNode>, node: TreeNode, parent: TreeNode?, onLeft: bool)
    requires Alike(h, h', s)
    ensures Alike(Hang(h, node, parent, onLeft), Hang(h', node, parent, onLeft), s)
  {
    hide Same;
    var m, m' := h.mem, h'.mem;
    if parent != null {
      WritesSame(h.mem, h'.mem, s, parent, node, Red);
      m := if onLeft then WithLeft(h.mem, parent, node) else WithRight(h.mem, parent, node);
      m' := if onLeft then WithLeft(h'.mem, parent, node) else WithRight(h'.mem, parent, node);
    }
    WriteSame(m, m', s, node, Cell(null, null, parent, Red), Cell(null, null, parent, Red));
  }

  lemma SpineKnown(h: Image, shape: Shape, c: Ctx, key: string)
    requires TreeOf(false, h.root, h.mem, shape) && Locate(shape, key) == (c, Leaf)
    ensures Spine(c) <= h.mem.Keys
  {
    SlotFound(false, h.root, h.mem, shape, c, key);
    SpineInside(c);
  }

  /** Insertion as written does what insertion on the shape does, if the links that the fixup reads are truthful. */
  lemma InsertNear(h: Image, shape: Shape, node: TreeNode, c: Ctx)
    requires TreeOf(false, h.root, h.mem, shape) && node !in h.mem && Locate(shape, node.key) == (c, Leaf)
    requires LinksOn(h.mem, c, Reads(c))
    ensures var h1, rounds := Hang(h, node, ParentPtr(c), c.InLeft?), |h.mem| + 1;
      && FixMem(false, h1, node, rounds).Ended? && EveryTurn(AtNamed(), false, h1, node, rounds)
      && var r := FixMem(false, h1, node, rounds).value;
         && TreeOf(false, r.root, r.mem, With(shape, node)) && r.mem.Keys == h.mem.Keys + {node}
         && SameParents(h, r, {node} + Spine(c))
  {
    hide TreeOf, PathLinks, LinksOn, Reads, Hang, FixMem, StandsAt, Fixed, Same, SameParents, Healed, With, Locate, EveryTurn;
    var h', s := Image(h.root, Healed(h.mem, c)), Spine(c) - Reads(c);
    HealedTree(h, shape, c, node.key);
    SpineKnown(h, shape, c, node.key);
    var h1, h1' := Hang(h, node, ParentPtr(c), c.InLeft?), Hang(h', node, ParentPtr(c), c.InLeft?);
    HangAlike(h, h', s, node, ParentPtr(c), c.InLeft?);
    SameKeys(h, h', s);
    HangRefines(false, h', shape, node, c);
    var known, t, rounds := LinksTrue(h'.root, h'.mem), Fork(Leaf, node, Red, Leaf), |h.mem| + 1;
    FixNear(known, true, h1, h1', s, c, t, rounds);
    SlotRefines(false, h', shape, node, c);
    FixedInto(false, h', shape, node, c, h1', FixMem(false, h1', node, rounds));
    NearInto(h, h', s, shape, node, c, FixMem(false, h1, node, rounds).value, FixMem(false, h1', node, rounds));
  }

  lemma SameKeys(h: Image, h': Image, s: set<TreeNode>)
    requires Alike(h, h', s)
    ensures h'.mem.Keys == h.mem.Keys && |h'.mem| == |h.mem|
  {
    assert |h.mem| == |h.mem.Keys| && |h'.mem| == |h'.mem.Keys|;
  }

  lemma NearInto(h: Image, h': Image, s: set<TreeNode>, shape: Shape, node: TreeNode, c: Ctx, r: Image, r': Ending<Image>)
    requires Alike(h, h', s) && s <= Spine(c) && Locate(shape, node.key) == (c, Leaf)
    requires InsertedInto(false, h', shape, node, r') && Alike(r, r'.value, s)
    ensures TreeOf(false, r.root, r.mem, With(shape, node)) && r.mem.Keys == h.mem.Keys + {node}
    ensures SameParents(h, r, {node} + Spine(c))
  {
    AlikeBack(r, r'.value, s);
    AlikeTree(r'.value, r, s, With(shape, node));
  }

  lemma AlikeBack(h: Image, h': Image, s: set<TreeNode>)
    requires Alike(h, h', s)
    ensures Alike(h', h, s)
  {
  }

  /** Insertion as written does what insertion on the shape does, if the links that the fixup reads are truthful. */
  lemma InsertRefines(repaired: bool, h: Image, shape: Shape, node: TreeNode)
    requires TreeOf(repaired, h.root, h.mem, shape) && node !in h.mem
    requires repaired || PathTruthful(h.mem, shape, node.key)
    ensures InsertedInto(repaired, h, shape, node, InsertMem(repaired, h, node))
    ensures Locate(shape, node.key).1.Fork? ==> InsertMem(repaired, h, node) == Ended(h)
    ensures InsertTurns(AtNamed(), repaired, h, node)
  {
    hide InsertMem, FixMem, Hang, Find, TreeOf, PathLinks, LinksOn, With, Spares, SameParents, InsertedInto, Down, EveryTurn, LinksTrue;
    FindRefines(repaired, h, shape, node.key);
    var (c, t) := Locate(shape, node.key);
    InsertIs(repaired, h, node, PlaceOf(c, t));
    if t.Fork? || repaired || LinksTrue(h.root, h.mem) {
      if t.Leaf? {
        SlotKnown(repaired, h, shape, c, node.key);
      }
      InsertRefinesWhole(repaired, h, shape, node);
      WholeTurns(repaired, h, shape, node);
    } else {
      InsertNear(h, shape, node, c);
      NewInto(h, shape, node, c, InsertMem(repaired, h, node));
    }
  }

  lemma SlotKnown(repaired: bool, h: Image, shape: Shape, c: Ctx, key: string)
    requires TreeOf(repaired, h.root, h.mem, shape) && Locate(shape, key) == (c, Leaf)
    ensures LinksTrue(h.root, h.mem) ==> PathLinks(h.mem, c)
  {
    SlotFound(repaired, h.root, h.mem, shape, c, key);
  }

  lemma NewInto(h: Image, shape: Shape, node: TreeNode, c: Ctx, r: Ending<Image>)
    requires TreeOf(false, h.root, h.mem, shape) && Locate(shape, node.key) == (c, Leaf) && !LinksTrue(h.root, h.mem)
    requires r.Ended? && TreeOf(false, r.value.root, r.value.mem, With(shape, node)) && r.value.mem.Keys == h.mem.Keys + {node}
    requires SameParents(h, r.value, {node} + Spine(c))
    ensures InsertedInto(false, h, shape, node, r)
  {
  }
}
