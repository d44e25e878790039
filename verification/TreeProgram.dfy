/**
 * The code of common/src/tree.c as a function on memory, assignment by assignment.
 *
 * It says what the code does to any pointers whatever, truthful or not.
 */
module TreeProgram {
  import opened Wrappers
  import opened CString
  import opened TreeShape
  import opened TreeMemory

  /** How a piece of the code comes out; `Unended` stands for a loop that has not ended in the rounds it was given. */
  datatype Ending<+T> = Ended(value: T) | NullFollowed | Unended

  /** What the code can reach: the root pointer and the fields of the nodes. */
  datatype Image = Image(root: TreeNode?, mem: Mem)

  function WithLeft(m: Mem, n: TreeNode, x: TreeNode?): Mem {
    m[n := Get(m, n).(left := x)]
  }

  function WithRight(m: Mem, n: TreeNode, x: TreeNode?): Mem {
    m[n := Get(m, n).(right := x)]
  }

  function WithParent(m: Mem, n: TreeNode, x: TreeNode?): Mem {
    m[n := Get(m, n).(parent := x)]
  }

  // ---------- rotations ----------

  // right_rotate
  function TurnRight(repaired: bool, h: Image, node: TreeNode): Image
    requires Get(h.mem, node).right != null
  {
    var right: TreeNode, parent := Get(h.mem, node).right, Get(h.mem, node).parent;
    Promote(h.root, WithLeft(MoveLeft(repaired, h.mem, node, right), right, node), parent, node, right)
  }

  // `node` takes over the left subtree of its right child and goes below that; the source forgets the guarded assignment
  function MoveLeft(repaired: bool, m: Mem, node: TreeNode, right: TreeNode): Mem {
    var inner, m1 := Get(m, right).left, WithRight(m, node, Get(m, right).left);
    var m2 := if repaired && inner != null then WithParent(m1, inner, node) else m1;
    WithParent(m2, node, right)
  }

  // left_rotate
  function TurnLeft(repaired: bool, h: Image, node: TreeNode): Image
    requires Get(h.mem, node).left != null
  {
    var left: TreeNode, parent := Get(h.mem, node).left, Get(h.mem, node).parent;
    Promote(h.root, WithRight(MoveRight(repaired, h.mem, node, left), left, node), parent, node, left)
  }

  // `node` takes over the right subtree of its left child and goes below that; the source forgets the guarded assignment
  function MoveRight(repaired: bool, m: Mem, node: TreeNode, left: TreeNode): Mem {
    var inner, m1 := Get(m, left).right, WithLeft(m, node, Get(m, left).right);
    var m2 := if repaired && inner != null then WithParent(m1, inner, node) else m1;
    WithParent(m2, node, left)
  }

  // the rest of both: colours, the parent of `child`, and who points to it
  function Promote(root: TreeNode?, m: Mem, parent: TreeNode?, node: TreeNode, child: TreeNode): Image {
    var m5 := WithColor(m, child, Get(m, node).color);
    var m6 := WithParent(m5, child, parent);
    var m7 := WithColor(m6, node, Red);
    HookUp(root, m7, parent, node, child)
  }

  // the end: `child` takes the place of `node` below `parent`
  function HookUp(root: TreeNode?, m: Mem, parent: TreeNode?, node: TreeNode, child: TreeNode): Image {
    if parent == null then Image(child, m)
    else if Get(m, parent).left == node then Image(root, WithLeft(m, parent, child))
    else Image(root, WithRight(m, parent, child))
  }

  // ---------- fix_after_insert ----------

  function UncleIn(m: Mem, p: TreeNode, gp: TreeNode): TreeNode? {
    if Get(m, gp).left == p then Get(m, gp).right else Get(m, gp).left
  }

  // the two branches that rotate
  function TurnsLeft(repaired: bool, h: Image, node: TreeNode, p: TreeNode, gp: TreeNode): Ending<Image> {
    var h1 := if Get(h.mem, p).right == node then TurnRight(repaired, h, p) else h;
    if Get(h1.mem, gp).left == null then NullFollowed else Ended(TurnLeft(repaired, h1, gp))
  }

  function TurnsRight(repaired: bool, h: Image, node: TreeNode, p: TreeNode, gp: TreeNode): Ending<Image> {
    var h1 := if Get(h.mem, p).left == node then TurnLeft(repaired, h, p) else h;
    if Get(h1.mem, gp).right == null then NullFollowed else Ended(TurnRight(repaired, h1, gp))
  }

  function Paint3(m: Mem, p: TreeNode, uncle: TreeNode, gp: TreeNode): Mem {
    WithColor(WithColor(WithColor(m, p, Black), uncle, Black), gp, Red)
  }

  /** The loop guard. */
  predicate Loops(m: Mem, node: TreeNode) {
    Get(m, node).parent != null && Get(m, Get(m, node).parent).color == Red
  }

  /** The loop body: the memory and `node` afterwards. */
  function Iterate(repaired: bool, h: Image, node: TreeNode): Ending<(Image, TreeNode)> {
    var p := Get(h.mem, node).parent;
    if p == null || Get(h.mem, p).parent == null then NullFollowed
    else
      var gp: TreeNode := Get(h.mem, p).parent;
      var uncle := UncleIn(h.mem, p, gp);
      if uncle != null && Get(h.mem, uncle).color == Red then Ended((Image(h.root, Paint3(h.mem, p, uncle, gp)), gp))
      else
        var r := if Get(h.mem, gp).left == p then TurnsLeft(repaired, h, node, p, gp) else TurnsRight(repaired, h, node, p, gp);
        if r.Ended? then Ended((r.value, node)) else NullFollowed
  }

  type Body = (Image, TreeNode) -> Ending<(Image, TreeNode)>

  /** The loop with this body, which gets `rounds` rounds, and the last line. */
  function LoopMem(body: Body, h: Image, node: TreeNode, rounds: nat): Ending<Image>
    decreases rounds
  {
    if !Loops(h.mem, node) then
      if h.root == null then NullFollowed else Ended(Image(h.root, WithColor(h.mem, h.root, Black)))
    else if rounds == 0 then Unended
    else
      var r := body(h, node);
      if r.NullFollowed? then NullFollowed else if r.Unended? then Unended else LoopMem(body, r.value.0, r.value.1, rounds - 1)
  }

  function FixBody(repaired: bool): Body {
    (h, node) => Iterate(repaired, h, node)
  }

  function FixMem(repaired: bool, h: Image, node: TreeNode, rounds: nat): Ending<Image> {
    LoopMem(FixBody(repaired), h, node, rounds)
  }

  // ---------- search and insertion ----------

  /** Where a search ends: at a node or at an empty slot, and whose child that is. */
  datatype Place = Place(node: TreeNode?, parent: TreeNode?, onLeft: bool)

  /** The search loop from `p` on; `left` are the nodes not seen yet, as a search that comes back never ends. */
  function Walk(m: Mem, p: TreeNode?, parent: TreeNode?, onLeft: bool, key: string, left: set<TreeNode>): Option<Place>
    decreases |left|
  {
    if p == null then Some(Place(null, parent, onLeft))
    else if p !in left then None
    else if StrCmp(p.key, key) > 0 then Walk(m, Get(m, p).left, p, true, key, left - {p})
    else if StrCmp(p.key, key) < 0 then Walk(m, Get(m, p).right, p, false, key, left - {p})
    else Some(Place(p, parent, onLeft))
  }

  function Find(h: Image, key: string): Option<Place> {
    Walk(h.mem, h.root, null, false, key, h.mem.Keys)
  }

  /** `*p = node` and the two assignments after it. */
  function Hang(h: Image, node: TreeNode, parent: TreeNode?, onLeft: bool): Image {
    var m := if parent == null then h.mem
             else if onLeft then WithLeft(h.mem, parent, node) else WithRight(h.mem, parent, node);
    Image(if parent == null then node else h.root, m[node := Cell(null, null, parent, Red)])
  }

  // insert_tree_node, as far as pointers and colours go
  function InsertMem(repaired: bool, h: Image, node: TreeNode): Ending<Image> {
    var place := Find(h, node.key);
    if place.None? then Unended
    else if place.value.node != null then Ended(h)
    else FixMem(repaired, Hang(h, node, place.value.parent, place.value.onLeft), node, |h.mem| + 1)
  }

  /** A run of insertions into an empty tree. */
  function RunMem(repaired: bool, ns: seq<TreeNode>): Ending<Image> {
    if ns == [] then Ended(Image(null, map[]))
    else
      var h := RunMem(repaired, ns[..|ns| - 1]);
      if !h.Ended? then h else InsertMem(repaired, h.value, ns[|ns| - 1])
  }

  // ---------- pointers stay inside ----------

  predicate Inside(m: Mem, p: TreeNode?) {
    p == null || p in m
  }

  ghost predicate Enclosed(m: Mem) {
    forall n <- m.Keys {:trigger Get(m, n)} :: Inside(m, Get(m, n).left) && Inside(m, Get(m, n).right) && Inside(m, Get(m, n).parent)
  }

  ghost predicate SelfContained(h: Image) {
    Inside(h.mem, h.root) && Enclosed(h.mem)
  }

  lemma WritesClosed(m: Mem, n: TreeNode, x: TreeNode?, color: Color)
    requires Enclosed(m) && n in m && Inside(m, x)
    ensures WithLeft(m, n, x).Keys == WithRight(m, n, x).Keys == WithParent(m, n, x).Keys == WithColor(m, n, color).Keys == m.Keys
    ensures Enclosed(WithLeft(m, n, x)) && Enclosed(WithRight(m, n, x)) && Enclosed(WithParent(m, n, x)) && Enclosed(WithColor(m, n, color))
  {
    assert forall k :: k != n ==> Get(WithLeft(m, n, x), k) == Get(WithRight(m, n, x), k) == Get(WithParent(m, n, x), k) == Get(WithColor(m, n, color), k) == Get(m, k);
  }

  lemma HookUpClosed(root: TreeNode?, m: Mem, parent: TreeNode?, node: TreeNode, child: TreeNode)
    requires SelfContained(Image(root, m)) && Inside(m, parent) && child in m
    ensures HookUp(root, m, parent, node, child).mem.Keys == m.Keys && SelfContained(HookUp(root, m, parent, node, child))
  {
    if parent != null {
      WritesClosed(m, parent, child, Red);
    }
  }

  lemma TurnRightClosed(repaired: bool, h: Image, node: TreeNode)
    requires SelfContained(h) && node in h.mem && Get(h.mem, node).right != null
    ensures TurnRight(repaired, h, node).mem.Keys == h.mem.Keys && SelfContained(TurnRight(repaired, h, node))
  {
    var right: TreeNode, parent := Get(h.mem, node).right, Get(h.mem, node).parent;
    MoveLeftClosed(repaired, h.mem, node, right);
    var m2 := MoveLeft(repaired, h.mem, node, right);
    WritesClosed(m2, right, node, Red);
    PromoteClosed(h.root, WithLeft(m2, right, node), parent, node, right);
  }

  lemma MoveLeftClosed(repaired: bool, m: Mem, node: TreeNode, right: TreeNode)
    requires Enclosed(m) && node in m && right in m
    ensures MoveLeft(repaired, m, node, right).Keys == m.Keys && Enclosed(MoveLeft(repaired, m, node, right))
  {
    var inner := Get(m, right).left;
    WritesClosed(m, node, inner, Red);
    var m1 := WithRight(m, node, inner);
    if inner != null {
      WritesClosed(m1, inner, node, Red);
    }
    WritesClosed(if repaired && inner != null then WithParent(m1, inner, node) else m1, node, right, Red);
  }

  lemma TurnLeftClosed(repaired: bool, h: Image, node: TreeNode)
    requires SelfContained(h) && node in h.mem && Get(h.mem, node).left != null
    ensures TurnLeft(repaired, h, node).mem.Keys == h.mem.Keys && SelfContained(TurnLeft(repaired, h, node))
  {
    var left: TreeNode, parent := Get(h.mem, node).left, Get(h.mem, node).parent;
    MoveRightClosed(repaired, h.mem, node, left);
    var m2 := MoveRight(repaired, h.mem, node, left);
    WritesClosed(m2, left, node, Red);
    PromoteClosed(h.root, WithRight(m2, left, node), parent, node, left);
  }

  lemma MoveRightClosed(repaired: bool, m: Mem, node: TreeNode, left: TreeNode)
    requires Enclosed(m) && node in m && left in m
    ensures MoveRight(repaired, m, node, left).Keys == m.Keys && Enclosed(MoveRight(repaired, m, node, left))
  {
    var inner := Get(m, left).right;
    WritesClosed(m, node, inner, Red);
    var m1 := WithLeft(m, node, inner);
    if inner != null {
      WritesClosed(m1, inner, node, Red);
    }
    WritesClosed(if repaired && inner != null then WithParent(m1, inner, node) else m1, node, left, Red);
  }

  lemma PromoteClosed(root: TreeNode?, m: Mem, parent: TreeNode?, node: TreeNode, child: TreeNode)
    requires SelfContained(Image(root, m)) && node in m && child in m && Inside(m, parent)
    ensures Promote(root, m, parent, node, child).mem.Keys == m.Keys && SelfContained(Promote(root, m, parent, node, child))
  {
    WritesClosed(m, child, null, Get(m, node).color);
    var m5 := WithColor(m, child, Get(m, node).color);
    WritesClosed(m5, child, parent, Red);
    WritesClosed(WithParent(m5, child, parent), node, null, Red);
    HookUpClosed(root, WithColor(WithParent(m5, child, parent), node, Red), parent, node, child);
  }

  lemma PaintClosed(m: Mem, p: TreeNode, uncle: TreeNode, gp: TreeNode)
    requires Enclosed(m) && p in m && uncle in m && gp in m
    ensures Paint3(m, p, uncle, gp).Keys == m.Keys && Enclosed(Paint3(m, p, uncle, gp))
  {
    WritesClosed(m, p, null, Black);
    WritesClosed(WithColor(m, p, Black), uncle, null, Black);
    WritesClosed(WithColor(WithColor(m, p, Black), uncle, Black), gp, null, Red);
  }

  lemma HangClosed(h: Image, node: TreeNode, parent: TreeNode?, onLeft: bool)
    requires SelfContained(h) && node !in h.mem && Inside(h.mem, parent)
    ensures Hang(h, node, parent, onLeft).mem.Keys == h.mem.Keys + {node} && SelfContained(Hang(h, node, parent, onLeft))
  {
    assert forall k :: k != node && k != parent ==> Get(Hang(h, node, parent, onLeft).mem, k) == Get(h.mem, k);
    assert parent != null ==> Get(h.mem, parent) == h.mem[parent];
  }

  lemma LoopUnfolds(body: Body, h: Image, node: TreeNode, rounds: nat)
    ensures !Loops(h.mem, node) && h.root != null ==> LoopMem(body, h, node, rounds) == Ended(Image(h.root, WithColor(h.mem, h.root, Black)))
    ensures Loops(h.mem, node) && rounds > 0 && body(h, node).Ended? ==>
      LoopMem(body, h, node, rounds) == LoopMem(body, body(h, node).value.0, body(h, node).value.1, rounds - 1)
  {
  }
}
