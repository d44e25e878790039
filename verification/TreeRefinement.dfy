/**
 * The program of `TreeProgram` does to the tree in memory what the functions of `TreeShape`
 * say, as far as the parent links it reads are truthful.
 */
module TreeRefinement {
  import opened Wrappers
  import opened CString
  import opened TreeShape
  import opened TreeMemory
  import opened TreeRotation
  import opened TreeLinks
  import opened TreeFixup
  import opened TreeProgram

  // ---------- rotations ----------

  /** The common end of both, where the three nodes are distinct. */
  lemma PromoteIs(root: TreeNode?, m: Mem, parent: TreeNode?, node: TreeNode, child: TreeNode)
    requires node in m && child in m && Inside(m, parent) && node != child && parent != node && parent != child
    ensures var r := Promote(root, m, parent, node, child);
      && r.mem.Keys == m.Keys && r.root == (if parent == null then child else root)
      && Get(r.mem, node) == Get(m, node).(color := Red)
      && Get(r.mem, child) == Get(m, child).(color := Get(m, node).color, parent := parent)
      && (parent != null ==>
            Get(r.mem, parent) == if Get(m, parent).left == node then Get(m, parent).(left := child) else Get(m, parent).(right := child))
      && forall n <- m.Keys :: n != node && n != child && n != parent ==> Get(r.mem, n) == Get(m, n)
  {
  }

  lemma MoveLeftIs(repaired: bool, m: Mem, node: TreeNode, right: TreeNode)
    requires node in m && right in m && node != right && Inside(m, Get(m, right).left)
    requires Get(m, right).left != node && Get(m, right).left != right
    ensures var r, inner := WithLeft(MoveLeft(repaired, m, node, right), right, node), Get(m, right).left;
      && r.Keys == m.Keys && Get(r, node) == Get(m, node).(right := inner, parent := right) && Get(r, right) == Get(m, right).(left := node)
      && (inner != null ==> Get(r, inner) == if repaired then Get(m, inner).(parent := node) else Get(m, inner))
      && forall n <- m.Keys :: n != node && n != right && n != inner ==> Get(r, n) == Get(m, n)
  {
  }

  lemma MoveRightIs(repaired: bool, m: Mem, node: TreeNode, left: TreeNode)
    requires node in m && left in m && node != left && Inside(m, Get(m, left).right)
    requires Get(m, left).right != node && Get(m, left).right != left
    ensures var r, inner := WithRight(MoveRight(repaired, m, node, left), left, node), Get(m, left).right;
      && r.Keys == m.Keys && Get(r, node) == Get(m, node).(left := inner, parent := left) && Get(r, left) == Get(m, left).(right := node)
      && (inner != null ==> Get(r, inner) == if repaired then Get(m, inner).(parent := node) else Get(m, inner))
      && forall n <- m.Keys :: n != node && n != left && n != inner ==> Get(r, n) == Get(m, n)
  {
  }

  /** Where no two of the nodes involved coincide, the assignments amount to the rotation. */
  lemma TurnRightIs(repaired: bool, h: Image, node: TreeNode)
    requires var right := Get(h.mem, node).right;
      && Placed(h.root, h.mem, node, right, Get(h.mem, right).left)
      && (Get(h.mem, right).left != null ==> Get(h.mem, right).left != Get(h.mem, node).parent)
    ensures var r := TurnRight(repaired, h, node); RightRotation(repaired, h.root, h.mem, r.root, r.mem, node)
  {
    hide Promote, MoveLeft, WithLeft;
    var right: TreeNode := Get(h.mem, node).right;
    MoveLeftIs(repaired, h.mem, node, right);
    PromoteIs(h.root, WithLeft(MoveLeft(repaired, h.mem, node, right), right, node), Get(h.mem, node).parent, node, right);
  }

  lemma TurnLeftIs(repaired: bool, h: Image, node: TreeNode)
    requires var left := Get(h.mem, node).left;
      && Placed(h.root, h.mem, node, left, Get(h.mem, left).right)
      && (Get(h.mem, left).right != null ==> Get(h.mem, left).right != Get(h.mem, node).parent)
    ensures var r := TurnLeft(repaired, h, node); LeftRotation(repaired, h.root, h.mem, r.root, r.mem, node)
  {
    hide Promote, MoveRight, WithRight;
    var left: TreeNode := Get(h.mem, node).left;
    MoveRightIs(repaired, h.mem, node, left);
    PromoteIs(h.root, WithRight(MoveRight(repaired, h.mem, node, left), left, node), Get(h.mem, node).parent, node, left);
  }

  lemma RightTurnAt(repaired: bool, h: Image, c: Ctx, t: Shape)
    requires t.Fork? && SeparateAt(c, t) && At(h.root, h.mem, c, t) && Get(h.mem, t.node).parent == ParentPtr(c)
    requires t.right.Fork? && CtxNodes(c) + Nodes(t) <= h.mem.Keys
    ensures Get(h.mem, t.node).right != null
    ensures var r := TurnRight(repaired, h, t.node); r.mem.Keys == h.mem.Keys && RightRotation(repaired, h.root, h.mem, r.root, r.mem, t.node)
  {
    PlacedForRight(h.root, h.mem, c, t);
    TurnRightIs(repaired, h, t.node);
  }

  lemma LeftTurnAt(repaired: bool, h: Image, c: Ctx, t: Shape)
    requires t.Fork? && SeparateAt(c, t) && At(h.root, h.mem, c, t) && Get(h.mem, t.node).parent == ParentPtr(c)
    requires t.left.Fork? && CtxNodes(c) + Nodes(t) <= h.mem.Keys
    ensures Get(h.mem, t.node).left != null
    ensures var r := TurnLeft(repaired, h, t.node); r.mem.Keys == h.mem.Keys && LeftRotation(repaired, h.root, h.mem, r.root, r.mem, t.node)
  {
    PlacedForLeft(h.root, h.mem, c, t);
    TurnLeftIs(repaired, h, t.node);
  }

  // ---------- one iteration ----------

  /** The memory `h` stands at `(c, t)`; see `Standing`. */
  ghost predicate StandsAt(repaired: bool, known: bool, ok: bool, h: Image, c: Ctx, t: Shape) {
    Standing(repaired, known, ok, h.root, h.mem, c, t)
  }

  /** Outside `s` no parent link differs. */
  ghost predicate SameParents(h: Image, h': Image, s: set<TreeNode>) {
    forall n <- h.mem.Keys {:trigger Get(h'.mem, n)} {:trigger Get(h.mem, n)} :: n !in s ==> Get(h'.mem, n).parent == Get(h.mem, n).parent
  }

  lemma RightThenLeft(repaired: bool, known: bool, ok: bool, h: Image, c: Ctx, t: Shape)
    requires StandsAt(repaired, known, ok, h, c, t) && Unbalanced(c) && !IsRed(Uncle(c)) && c.up.InLeft? && c.InRight?
    ensures Get(h.mem, c.node).right == t.node
    ensures var h1 := TurnRight(repaired, h, c.node);
      && Get(h1.mem, c.up.node).left != null
      && var h2 := TurnLeft(repaired, h1, c.up.node);
         h2.mem.Keys == h.mem.Keys && StandsAt(repaired, known, ok && (repaired || MovesEmpty(c, t)), h2, Step(c, t).0, Step(c, t).1)
    ensures !repaired ==> SameParents(h, TurnLeft(repaired, TurnRight(repaired, h, c.node), c.up.node), Way(c, t))
  {
    hide TurnRight, TurnLeft, At, SeparateAt, LinkStatus, MovesEmpty, RightRotation, LeftRotation;
    Family(h.root, h.mem, c, t);
    ToParent(h.root, h.mem, c, t);
    RightTurnAt(repaired, h, c.up, Around(c, t));
    var h1 := TurnRight(repaired, h, c.node);
    RightToGrandparent(repaired, h.root, h.mem, h1.root, h1.mem, c, t);
    LeftTurnAt(repaired, h1, c.up.up, Around(c.up, RotatedRight(Around(c, t))));
    var h2 := TurnLeft(repaired, h1, c.up.node);
    RightThenLeftFacts(repaired, h.root, h.mem, h1.root, h1.mem, h2.root, h2.mem, c, t);
    StepWay(c, t);
    RightThenLeftDone(repaired, known, ok, h.root, h.mem, h1.root, h1.mem, h2.root, h2.mem, c, t);
  }

  lemma LeftOnce(repaired: bool, known: bool, ok: bool, h: Image, c: Ctx, t: Shape)
    requires StandsAt(repaired, known, ok, h, c, t) && Unbalanced(c) && !IsRed(Uncle(c)) && c.up.InLeft? && c.InLeft?
    ensures Get(h.mem, c.node).right != t.node && Get(h.mem, c.up.node).left != null
    ensures var h2 := TurnLeft(repaired, h, c.up.node);
      h2.mem.Keys == h.mem.Keys && StandsAt(repaired, known, ok && (repaired || MovesEmpty(c, t)), h2, Step(c, t).0, Step(c, t).1)
    ensures !repaired ==> SameParents(h, TurnLeft(repaired, h, c.up.node), Way(c, t))
  {
    hide TurnRight, TurnLeft, At, SeparateAt, LinkStatus, MovesEmpty, RightRotation, LeftRotation;
    Family(h.root, h.mem, c, t);
    ToGrandparent(h.root, h.mem, c, t);
    LeftTurnAt(repaired, h, c.up.up, Around(c.up, Around(c, t)));
    var h2 := TurnLeft(repaired, h, c.up.node);
    LeftOnceFacts(repaired, h.root, h.mem, h2.root, h2.mem, c, t);
    StepWay(c, t);
    LeftOnceDone(repaired, known, ok, h.root, h.mem, h2.root, h2.mem, c, t);
  }

  lemma LeftThenRight(repaired: bool, known: bool, ok: bool, h: Image, c: Ctx, t: Shape)
    requires StandsAt(repaired, known, ok, h, c, t) && Unbalanced(c) && !IsRed(Uncle(c)) && c.up.InRight? && c.InLeft?
    ensures Get(h.mem, c.node).left == t.node
    ensures var h1 := TurnLeft(repaired, h, c.node);
      && Get(h1.mem, c.up.node).right != null
      && var h2 := TurnRight(repaired, h1, c.up.node);
         h2.mem.Keys == h.mem.Keys && StandsAt(repaired, known, ok && (repaired || MovesEmpty(c, t)), h2, Step(c, t).0, Step(c, t).1)
    ensures !repaired ==> SameParents(h, TurnRight(repaired, TurnLeft(repaired, h, c.node), c.up.node), Way(c, t))
  {
    hide TurnRight, TurnLeft, At, SeparateAt, LinkStatus, MovesEmpty, RightRotation, LeftRotation;
    Family(h.root, h.mem, c, t);
    ToParent(h.root, h.mem, c, t);
    LeftTurnAt(repaired, h, c.up, Around(c, t));
    var h1 := TurnLeft(repaired, h, c.node);
    LeftToGrandparent(repaired, h.root, h.mem, h1.root, h1.mem, c, t);
    RightTurnAt(repaired, h1, c.up.up, Around(c.up, RotatedLeft(Around(c, t))));
    var h2 := TurnRight(repaired, h1, c.up.node);
    LeftThenRightFacts(repaired, h.root, h.mem, h1.root, h1.mem, h2.root, h2.mem, c, t);
    StepWay(c, t);
    LeftThenRightDone(repaired, known, ok, h.root, h.mem, h1.root, h1.mem, h2.root, h2.mem, c, t);
  }

  lemma RightOnce(repaired: bool, known: bool, ok: bool, h: Image, c: Ctx, t: Shape)
    requires StandsAt(repaired, known, ok, h, c, t) && Unbalanced(c) && !IsRed(Uncle(c)) && c.up.InRight? && c.InRight?
    ensures Get(h.mem, c.node).left != t.node && Get(h.mem, c.up.node).right != null
    ensures var h2 := TurnRight(repaired, h, c.up.node);
      h2.mem.Keys == h.mem.Keys && StandsAt(repaired, known, ok && (repaired || MovesEmpty(c, t)), h2, Step(c, t).0, Step(c, t).1)
    ensures !repaired ==> SameParents(h, TurnRight(repaired, h, c.up.node), Way(c, t))
  {
    hide TurnRight, TurnLeft, At, SeparateAt, LinkStatus, MovesEmpty, RightRotation, LeftRotation;
    Family(h.root, h.mem, c, t);
    ToGrandparent(h.root, h.mem, c, t);
    RightTurnAt(repaired, h, c.up.up, Around(c.up, Around(c, t)));
    var h2 := TurnRight(repaired, h, c.up.node);
    RightOnceFacts(repaired, h.root, h.mem, h2.root, h2.mem, c, t);
    StepWay(c, t);
    RightOnceDone(repaired, known, ok, h.root, h.mem, h2.root, h2.mem, c, t);
  }

  /** The two branches of the loop body that rotate. */
  lemma Turns(repaired: bool, known: bool, ok: bool, h: Image, c: Ctx, t: Shape)
    requires StandsAt(repaired, known, ok, h, c, t) && Unbalanced(c) && !IsRed(Uncle(c)) && !c.up.Top?
    ensures var r := if c.up.InLeft? then TurnsLeft(repaired, h, t.node, c.node, c.up.node)
                     else TurnsRight(repaired, h, t.node, c.node, c.up.node);
      && r.Ended? && r.value.mem.Keys == h.mem.Keys && (!repaired ==> SameParents(h, r.value, Way(c, t)))
      && StandsAt(repaired, known, ok && (repaired || MovesEmpty(c, t)), r.value, Step(c, t).0, Step(c, t).1)
  {
    if c.up.InLeft? && c.InLeft? {
      LeftOnce(repaired, known, ok, h, c, t);
    } else if c.up.InLeft? {
      RightThenLeft(repaired, known, ok, h, c, t);
    } else if c.InLeft? {
      LeftThenRight(repaired, known, ok, h, c, t);
    } else {
      RightOnce(repaired, known, ok, h, c, t);
    }
  }

  /** What the loop body does, told from the nodes it finds. */
  lemma IterateIs(repaired: bool, h: Image, node: TreeNode, p: TreeNode, gp: TreeNode, uncle: TreeNode?)
    requires Get(h.mem, node).parent == p && Get(h.mem, p).parent == gp && uncle == UncleIn(h.mem, p, gp)
    ensures uncle != null && Get(h.mem, uncle).color == Red ==>
      Iterate(repaired, h, node) == Ended((Image(h.root, Paint3(h.mem, p, uncle, gp)), gp))
    ensures uncle == null || Get(h.mem, uncle).color != Red ==>
      var r := if Get(h.mem, gp).left == p then TurnsLeft(repaired, h, node, p, gp) else TurnsRight(repaired, h, node, p, gp);
      Iterate(repaired, h, node) == if r.Ended? then Ended((r.value, node)) else NullFollowed
  {
  }

  /** Where one iteration leads: `r` stands at the next position. */
  ghost predicate Advanced(repaired: bool, known: bool, ok: bool, h: Image, c: Ctx, t: Shape, r: Ending<(Image, TreeNode)>)
    requires t.Fork? && Unbalanced(c) && BlackRoot(c)
  {
    && r.Ended? && r.value.1 == Step(c, t).1.node && r.value.0.mem.Keys == h.mem.Keys
    && StandsAt(repaired, known, ok && (repaired || MovesEmpty(c, t)), r.value.0, Step(c, t).0, Step(c, t).1)
    && (!repaired ==> SameParents(h, r.value.0, Way(c, t)))
  }

  lemma Recolours(repaired: bool, known: bool, ok: bool, h: Image, c: Ctx, t: Shape)
    requires StandsAt(repaired, known, ok, h, c, t) && Unbalanced(c) && IsRed(Uncle(c))
    ensures !c.up.Top? && Iterate(repaired, h, t.node) == Ended((Image(h.root, Recoloured(h.mem, c)), c.up.node))
    ensures Advanced(repaired, known, ok, h, c, t, Iterate(repaired, h, t.node))
  {
    Family(h.root, h.mem, c, t);
    IterateIs(repaired, h, t.node, c.node, c.up.node, Uncle(c).node);
    RecolourDone(repaired, known, ok, h.root, h.mem, c, t);
    RecolouredPointers(h.mem, c);
    StepNode(c, t);
  }

  /** One iteration of the program is one step on the shape. */
  lemma Iterates(repaired: bool, known: bool, ok: bool, h: Image, c: Ctx, t: Shape)
    requires StandsAt(repaired, known, ok, h, c, t) && Unbalanced(c)
    ensures Advanced(repaired, known, ok, h, c, t, Iterate(repaired, h, t.node))
  {
    if IsRed(Uncle(c)) {
      Recolours(repaired, known, ok, h, c, t);
    } else {
      Family(h.root, h.mem, c, t);
      Turns(repaired, known, ok, h, c, t);
      IterateIs(repaired, h, t.node, c.node, c.up.node, Ptr(Uncle(c)));
      StepNode(c, t);
    }
  }

  // ---------- the whole fixup ----------

  /** Where the fixup leads. */
  ghost predicate Fixed(repaired: bool, known: bool, ok: bool, h: Image, c: Ctx, t: Shape, r: Ending<Image>)
    requires t.Fork? && BlackRoot(c)
  {
    && r.Ended? && r.value.mem.Keys == h.mem.Keys && At(r.value.root, r.value.mem, Top, Fix(c, t))
    && (known ==> (LinksTrue(r.value.root, r.value.mem) <==> ok && (repaired || FixMovesEmpty(c, t))))
    && (!repaired ==> SameParents(h, r.value, Way(c, t)))
  }

  /** What `inv` has to tell about the loop: the guard sees the shape, and the body takes a step on it. */
  ghost predicate OneRound(body: Body, inv: (bool, Image, Ctx, Shape) -> bool, repaired: bool, ok: bool, h: Image, c: Ctx, t: Shape) {
    && t.Fork? && BlackRoot(c) && h.root != null && (Loops(h.mem, t.node) <==> Unbalanced(c))
    && (Unbalanced(c) ==>
          var r := body(h, t.node);
          && r.Ended? && r.value.1 == Step(c, t).1.node && r.value.0.mem.Keys == h.mem.Keys
          && inv(ok && (repaired || MovesEmpty(c, t)), r.value.0, Step(c, t).0, Step(c, t).1))
  }

  /** With such an invariant the loop ends, and where the fixup on the shape ends. */
  lemma {:induction false} LoopEnds(body: Body, inv: (bool, Image, Ctx, Shape) -> bool, repaired: bool, ok: bool, h: Image, c: Ctx, t: Shape, rounds: nat)
    returns (ok': bool, h': Image, c': Ctx, t': Shape)
    requires t.Fork? && inv(ok, h, c, t) && Depth(c) <= rounds
    requires forall ok, h, c, t {:trigger inv(ok, h, c, t)} :: inv(ok, h, c, t) ==> OneRound(body, inv, repaired, ok, h, c, t)
    ensures inv(ok', h', c', t') && t'.Fork? && BlackRoot(c') && !Unbalanced(c') && h'.root != null && h'.mem.Keys == h.mem.Keys
    ensures LoopMem(body, h, t.node, rounds) == Ended(Image(h'.root, WithColor(h'.mem, h'.root, Black)))
    ensures BlackRoot(c) && Fix(c, t) == Blacken(Plug(c', t'))
    ensures ok' <==> ok && (repaired || FixMovesEmpty(c, t))
    decreases Depth(c)
  {
    assert OneRound(body, inv, repaired, ok, h, c, t);
    FixUnfolds(c, t);
    if Unbalanced(c) {
      StepClimbs(c, t);
      var r := body(h, t.node).value;
      ok', h', c', t' := LoopEnds(body, inv, repaired, ok && (repaired || MovesEmpty(c, t)), r.0, Step(c, t).0, Step(c, t).1, rounds - 1);
    } else {
      ok', h', c', t' := ok, h, c, t;
    }
  }

  lemma BodyAdvances(repaired: bool, known: bool, ok: bool, h: Image, c: Ctx, t: Shape)
    requires StandsAt(repaired, known, ok, h, c, t) && Unbalanced(c)
    ensures Advanced(repaired, known, ok, h, c, t, FixBody(repaired)(h, t.node))
  {
    Iterates(repaired, known, ok, h, c, t);
  }

  lemma GuardAt(repaired: bool, known: bool, ok: bool, h: Image, c: Ctx, t: Shape)
    requires StandsAt(repaired, known, ok, h, c, t)
    ensures t.Fork? && BlackRoot(c) && h.root != null && (Loops(h.mem, t.node) <==> Unbalanced(c))
  {
    GuardSees(h.root, h.mem, c, t);
    Blackened(known, ok, h.root, h.mem, c, t);
  }

  lemma FixedNow(repaired: bool, known: bool, ok: bool, h: Image, c: Ctx, t: Shape)
    requires StandsAt(repaired, known, ok, h, c, t) && !Unbalanced(c) && h.root != null
    ensures var r := Image(h.root, WithColor(h.mem, h.root, Black));
      && r.mem.Keys == h.mem.Keys && At(r.root, r.mem, Top, Blacken(Plug(c, t)))
      && (known ==> (LinksTrue(r.root, r.mem) <==> ok))
  {
    Blackened(known, ok, h.root, h.mem, c, t);
  }

  /** The invariant of the loop that started from `h0` and has changed parent links in `way` only. */
  ghost predicate StandsSince(repaired: bool, known: bool, h0: Image, way: set<TreeNode>, ok: bool, h: Image, c: Ctx, t: Shape) {
    StandsAt(repaired, known, ok, h, c, t) && (!repaired ==> Way(c, t) <= way && SameParents(h0, h, way))
  }

  lemma BodyKeeps(repaired: bool, known: bool, h0: Image, way: set<TreeNode>, ok: bool, h: Image, c: Ctx, t: Shape)
    requires StandsSince(repaired, known, h0, way, ok, h, c, t) && Unbalanced(c)
    ensures var r := FixBody(repaired)(h, t.node);
      && r.Ended? && r.value.1 == Step(c, t).1.node && r.value.0.mem.Keys == h.mem.Keys
      && StandsSince(repaired, known, h0, way, ok && (repaired || MovesEmpty(c, t)), r.value.0, Step(c, t).0, Step(c, t).1)
  {
    hide StandsAt, Iterate, MovesEmpty, Way;
    BodyAdvances(repaired, known, ok, h, c, t);
    WayShrinks(repaired, known, ok, h, c, t);
  }

  lemma WayShrinks(repaired: bool, known: bool, ok: bool, h: Image, c: Ctx, t: Shape)
    requires StandsAt(repaired, known, ok, h, c, t) && Unbalanced(c)
    ensures t.Fork? && BlackRoot(c) && Way(Step(c, t).0, Step(c, t).1) <= Way(c, t)
  {
    StepWay(c, t);
  }

  lemma FixRefines(repaired: bool, known: bool, ok: bool, h: Image, c: Ctx, t: Shape, rounds: nat)
    requires StandsAt(repaired, known, ok, h, c, t) && Depth(c) <= rounds
    ensures Fixed(repaired, known, ok, h, c, t, FixMem(repaired, h, t.node, rounds))
  {
    hide Fixed, Iterate;
    var way := Way(c, t);
    var inv := (ok, h', c, t) => StandsSince(repaired, known, h, way, ok, h', c, t);
    forall ok, h', c, t {:trigger inv(ok, h', c, t)} | inv(ok, h', c, t)
      ensures OneRound(FixBody(repaired), inv, repaired, ok, h', c, t)
    {
      hide Iterate, StandsAt;
      GuardAt(repaired, known, ok, h', c, t);
      if Unbalanced(c) {
        BodyKeeps(repaired, known, h, way, ok, h', c, t);
      }
    }
    var ok', h', c', t' := LoopEnds(FixBody(repaired), inv, repaired, ok, h, c, t, rounds);
    hide StandsAt;
    FixedAtEnd(repaired, known, ok, h, c, t, ok', h', c', t');
  }

  lemma FixedAtEnd(repaired: bool, known: bool, ok: bool, h: Image, c: Ctx, t: Shape, ok': bool, h': Image, c': Ctx, t': Shape)
    requires t.Fork? && BlackRoot(c) && !Unbalanced(c') && h'.root != null && h'.mem.Keys == h.mem.Keys
    requires StandsSince(repaired, known, h, Way(c, t), ok', h', c', t')
    requires Fix(c, t) == Blacken(Plug(c', t')) && (ok' <==> ok && (repaired || FixMovesEmpty(c, t)))
    ensures Fixed(repaired, known, ok, h, c, t, Ended(Image(h'.root, WithColor(h'.mem, h'.root, Black))))
  {
    hide StandsAt, Fix, FixMovesEmpty, LinksTrue, Way;
    FixedNow(repaired, known, ok', h', c', t');
    assert forall n: TreeNode :: Get(WithColor(h'.mem, h'.root, Black), n).parent == Get(h'.mem, n).parent;
  }

  lemma {:induction false} DepthBound(c: Ctx)
    requires SeparateCtx(c)
    ensures Depth(c) <= |CtxNodes(c)|
  {
    if !c.Top? {
      DepthBound(c.up);
      assert CtxNodes(c) == CtxNodes(c.up) + ({c.node} + Nodes(Sibling(c)));
      Bigger(CtxNodes(c.up), {c.node}, Nodes(Sibling(c)));
    }
  }

  lemma Bigger<X>(a: set<X>, b: set<X>, c: set<X>)
    requires a !! b
    ensures |a + (b + c)| >= |a| + |b|
  {
    assert a + (b + c) == (a + b) + (c - a - b);
  }

  // ---------- search ----------

  function PlaceOf(c: Ctx, t: Shape): Place {
    Place(Ptr(t), ParentPtr(c), c.InLeft?)
  }

  /** The search loop ends, and where the walk on the shape ends. */
  lemma {:induction false} WalkRefines(m: Mem, c: Ctx, t: Shape, key: string, left: set<TreeNode>)
    requires Rep(m, t) && Separate(t) && Nodes(t) <= left
    ensures var (c', t') := Down(c, t, key);
      Walk(m, Ptr(t), ParentPtr(c), c.InLeft?, key, left) == Some(PlaceOf(c', t'))
    decreases t
  {
    if t.Fork? {
      var n := t.node;
      if StrCmp(n.key, key) > 0 {
        WalkRefines(m, InLeft(c, n, t.color, t.right), t.left, key, left - {n});
      } else if StrCmp(n.key, key) < 0 {
        WalkRefines(m, InRight(c, t.left, n, t.color), t.right, key, left - {n});
      }
    }
  }

  lemma FindRefines(repaired: bool, h: Image, shape: Shape, key: string)
    requires TreeOf(repaired, h.root, h.mem, shape)
    ensures var (c, t) := Locate(shape, key); Find(h, key) == Some(PlaceOf(c, t))
  {
    SortedSeparate(shape);
    WalkRefines(h.mem, Top, shape, key, h.mem.Keys);
  }

  // ---------- insertion ----------

  lemma HangIs(h: Image, c: Ctx, node: TreeNode)
    requires FreeSlot(h.root, h.mem, c) && node !in h.mem
    ensures var r := Hang(h, node, ParentPtr(c), c.InLeft?); Hung(h.root, h.mem, r.root, r.mem, c, node)
  {
  }

  /** All links on the search path are truthful, if the key is new. */
  ghost predicate WholePath(m: Mem, shape: Shape, key: string) {
    Locate(shape, key).1.Leaf? ==> PathLinks(m, Locate(shape, key).0)
  }

  lemma HangRefines(repaired: bool, h: Image, shape: Shape, node: TreeNode, c: Ctx)
    requires TreeOf(repaired, h.root, h.mem, shape) && node !in h.mem && Locate(shape, node.key) == (c, Leaf)
    requires repaired || PathLinks(h.mem, c)
    ensures StandsAt(repaired, LinksTrue(h.root, h.mem), true, Hang(h, node, ParentPtr(c), c.InLeft?), c, Fork(Leaf, node, Red, Leaf))
    ensures Hang(h, node, ParentPtr(c), c.InLeft?).mem.Keys == h.mem.Keys + {node}
    ensures SameParents(h, Hang(h, node, ParentPtr(c), c.InLeft?), {node})
    ensures Depth(c) <= |h.mem| && BlackRoot(c)
  {
    SlotFound(repaired, h.root, h.mem, shape, c, node.key);
    HangIs(h, c, node);
    var r := Hang(h, node, ParentPtr(c), c.InLeft?);
    SlotFilled(repaired, h.root, h.mem, r.root, r.mem, c, node);
    DepthBound(c);
  }

  lemma SlotRefines(repaired: bool, h: Image, shape: Shape, node: TreeNode, c: Ctx)
    requires TreeOf(repaired, h.root, h.mem, shape) && node !in h.mem && Locate(shape, node.key) == (c, Leaf)
    requires repaired || PathLinks(h.mem, c)
    ensures var h' := Hang(h, node, ParentPtr(c), c.InLeft?);
      && h'.mem.Keys == h.mem.Keys + {node} && BlackRoot(c) && SameParents(h, h', {node})
      && Fixed(repaired, LinksTrue(h.root, h.mem), true, h', c, Fork(Leaf, node, Red, Leaf), FixMem(repaired, h', node, |h.mem| + 1))
  {
    hide TreeOf, PathLinks, Hang, FixMem, Fixed, StandsAt, SameParents, LinksTrue, Locate, BlackRoot, Depth;
    HangRefines(repaired, h, shape, node, c);
    FixRefines(repaired, LinksTrue(h.root, h.mem), true, Hang(h, node, ParentPtr(c), c.InLeft?), c, Fork(Leaf, node, Red, Leaf), |h.mem| + 1);
  }

  /** Where an insertion leads. */
  ghost predicate InsertedInto(repaired: bool, h: Image, shape: Shape, node: TreeNode, r: Ending<Image>) {
    && !IsRed(shape) && Sorted(Inorder(shape)) && r.Ended? && TreeOf(repaired, r.value.root, r.value.mem, With(shape, node))
    && r.value.mem.Keys == h.mem.Keys + (if Locate(shape, node.key).1.Leaf? then {node} else {})
    && (LinksTrue(h.root, h.mem) ==> (LinksTrue(r.value.root, r.value.mem) <==> repaired || Spares(shape, node)))
    && (!repaired ==> SameParents(h, r.value, {node} + Spine(Locate(shape, node.key).0)))
  }

  /** What `insert_tree_node` does, told from what its search finds. */
  lemma InsertIs(repaired: bool, h: Image, node: TreeNode, place: Place)
    requires Find(h, node.key) == Some(place)
    ensures InsertMem(repaired, h, node) ==
      if place.node != null then Ended(h) else FixMem(repaired, Hang(h, node, place.parent, place.onLeft), node, |h.mem| + 1)
  {
  }

  lemma FixedInto(repaired: bool, h: Image, shape: Shape, node: TreeNode, c: Ctx, h': Image, r: Ending<Image>)
    requires TreeOf(repaired, h.root, h.mem, shape) && Locate(shape, node.key) == (c, Leaf) && BlackRoot(c)
    requires h'.mem.Keys == h.mem.Keys + {node}
    requires SameParents(h, h', {node})
    requires Fixed(repaired, LinksTrue(h.root, h.mem), true, h', c, Fork(Leaf, node, Red, Leaf), r)
    ensures InsertedInto(repaired, h, shape, node, r)
  {
    InsertedTree(shape, node);
  }

  /** Insertion as written does what insertion on the shape does, if all links on its search path are truthful. */
  lemma InsertRefinesWhole(repaired: bool, h: Image, shape: Shape, node: TreeNode)
    requires TreeOf(repaired, h.root, h.mem, shape) && node !in h.mem
    requires repaired || WholePath(h.mem, shape, node.key)
    ensures InsertedInto(repaired, h, shape, node, InsertMem(repaired, h, node))
    ensures Locate(shape, node.key).1.Fork? ==> InsertMem(repaired, h, node) == Ended(h)
  {
    hide InsertMem, FixMem, Hang, Find, TreeOf, PathLinks, With, Spares, Fixed, SameParents, InsertedInto, Down, BlackRoot;
    FindRefines(repaired, h, shape, node.key);
    var (c, t) := Locate(shape, node.key);
    InsertIs(repaired, h, node, PlaceOf(c, t));
    if t.Leaf? {
      SlotRefines(repaired, h, shape, node, c);
      var h' := Hang(h, node, ParentPtr(c), c.InLeft?);
      FixedInto(repaired, h, shape, node, c, h', FixMem(repaired, h', node, |h.mem| + 1));
    } else {
      FoundInto(repaired, h, shape, node);
    }
  }

  lemma FoundInto(repaired: bool, h: Image, shape: Shape, node: TreeNode)
    requires TreeOf(repaired, h.root, h.mem, shape) && Locate(shape, node.key).1.Fork?
    ensures InsertedInto(repaired, h, shape, node, Ended(h))
  {
  }
}
