/**
 * The dictionary of common/src/tree.c on the heap: rotations, fixup, insertion and lookup
 * rewrite the fields of `TreeNode` objects in place. Each method does to the heap what its
 * counterpart in `TreeProgram` does to a memory, whatever the pointers are; what that means for
 * the tree comes from `TreeRefinement`.
 */
module Dictionary {
  import opened Wrappers
  import opened Rings
  import opened CString
  import opened TreeShape
  import opened TreeMemory
  import opened TreeLinks
  import opened TreeFixup
  import opened TreeProgram
  import opened TreeRefinement
  import opened TreeOrder
  import opened TreeReads

  class Dict {
    const repaired: bool  // whether the rotations also re-aim the parent of the subtree they move
    var root: TreeNode?
    var size: nat
    ghost var mem: Mem                // the pointers of the linked nodes
    ghost var shape: Shape            // the tree below `root`
    ghost var ring: seq<Link<TreeNode?>>  // the links embedded in those nodes, in ring order

    /** `mem` mirrors the fields of the linked nodes. */
    ghost predicate InSync()
      reads this`mem, mem.Keys`left, mem.Keys`right, mem.Keys`parent, mem.Keys`color
    {
      && (forall n <- mem.Keys {:trigger n.left} :: Get(mem, n).left == n.left)
      && (forall n <- mem.Keys {:trigger n.right} :: Get(mem, n).right == n.right)
      && (forall n <- mem.Keys {:trigger n.parent} :: Get(mem, n).parent == n.parent)
      && (forall n <- mem.Keys {:trigger n.color} :: Get(mem, n).color == n.color)
    }

    ghost function Now(): Image
      reads this`root, this`mem
    {
      Image(root, mem)
    }

    ghost predicate Synced()
      reads this`root, this`mem, mem.Keys`left, mem.Keys`right, mem.Keys`parent, mem.Keys`color
    {
      InSync() && SelfContained(Now())
    }

    // ---------- single assignments ----------

    method SetLeft(n: TreeNode, x: TreeNode?)
      requires InSync() && n in mem
      modifies this`mem, n`left
      ensures InSync() && mem == WithLeft(old(mem), n, x)
    {
      n.left := x;
      mem := WithLeft(mem, n, x);
    }

    method SetRight(n: TreeNode, x: TreeNode?)
      requires InSync() && n in mem
      modifies this`mem, n`right
      ensures InSync() && mem == WithRight(old(mem), n, x)
    {
      n.right := x;
      mem := WithRight(mem, n, x);
    }

    method SetParent(n: TreeNode, x: TreeNode?)
      requires InSync() && n in mem
      modifies this`mem, n`parent
      ensures InSync() && mem == WithParent(old(mem), n, x)
    {
      n.parent := x;
      mem := WithParent(mem, n, x);
    }

    method SetColor(n: TreeNode, color: Color)
      requires InSync() && n in mem
      modifies this`mem, n`color
      ensures InSync() && mem == WithColor(old(mem), n, color)
    {
      n.color := color;
      mem := WithColor(mem, n, color);
    }

    // ---------- rotations ----------

    // right_rotate
    method RightRotate(node: TreeNode)
      requires Synced() && node in mem && node.right != null
      modifies this`root, this`mem, mem.Keys`left, mem.Keys`right, mem.Keys`parent, mem.Keys`color
      ensures Synced() && mem.Keys == old(mem).Keys && Now() == TurnRight(repaired, old(Now()), node)
    {
      TurnRightClosed(repaired, Now(), node);
      var right: TreeNode, parent := node.right, node.parent;
      TakeLeftOf(node, right);
      SetLeft(right, node);
      PromoteChild(parent, node, right);
    }

    // its first assignments, and the guarded one that the source forgets
    method TakeLeftOf(node: TreeNode, right: TreeNode)
      requires Synced() && node in mem && right in mem
      modifies this`mem, mem.Keys`right, mem.Keys`parent
      ensures InSync() && mem.Keys == old(mem).Keys && mem == MoveLeft(repaired, old(mem), node, right)
    {
      var inner := right.left;
      SetRight(node, inner);
      if repaired && inner != null {
        SetParent(inner, node);
      }
      SetParent(node, right);
    }

    // left_rotate
    method LeftRotate(node: TreeNode)
      requires Synced() && node in mem && node.left != null
      modifies this`root, this`mem, mem.Keys`left, mem.Keys`right, mem.Keys`parent, mem.Keys`color
      ensures Synced() && mem.Keys == old(mem).Keys && Now() == TurnLeft(repaired, old(Now()), node)
    {
      TurnLeftClosed(repaired, Now(), node);
      var left: TreeNode, parent := node.left, node.parent;
      TakeRightOf(node, left);
      SetRight(left, node);
      PromoteChild(parent, node, left);
    }

    // its first assignments, and the guarded one that the source forgets
    method TakeRightOf(node: TreeNode, left: TreeNode)
      requires Synced() && node in mem && left in mem
      modifies this`mem, mem.Keys`left, mem.Keys`parent
      ensures InSync() && mem.Keys == old(mem).Keys && mem == MoveRight(repaired, old(mem), node, left)
    {
      var inner := left.right;
      SetLeft(node, inner);
      if repaired && inner != null {
        SetParent(inner, node);
      }
      SetParent(node, left);
    }

    // the rest of both rotations
    method PromoteChild(parent: TreeNode?, node: TreeNode, child: TreeNode)
      requires InSync() && node in mem && child in mem && Inside(mem, parent)
      modifies this`root, this`mem, mem.Keys`left, mem.Keys`right, mem.Keys`parent, mem.Keys`color
      ensures InSync() && Now() == Promote(old(root), old(mem), parent, node, child)
    {
      SetColor(child, node.color);
      SetParent(child, parent);
      SetColor(node, Red);
      HookChild(parent, node, child);
    }

    // their end
    method HookChild(parent: TreeNode?, node: TreeNode, child: TreeNode)
      requires InSync() && Inside(mem, parent)
      modifies this`root, this`mem, mem.Keys`left, mem.Keys`right
      ensures InSync() && Now() == HookUp(old(root), old(mem), parent, node, child)
    {
      if parent == null {
        root := child;
      } else if parent.left == node {
        SetLeft(parent, child);
      } else {
        SetRight(parent, child);
      }
    }

    // ---------- fix_after_insert ----------

    function GetUncle(node: TreeNode): TreeNode?
      requires node.parent != null && node.parent.parent != null
      reads node, node.parent, if node.parent == null then null else node.parent.parent
    {
      var gp := node.parent.parent;
      if gp.left == node.parent then gp.right else gp.left
    }

    // the branch in which the uncle is red
    method Recolour(p: TreeNode, uncle: TreeNode, gp: TreeNode)
      requires Synced() && p in mem && uncle in mem && gp in mem
      modifies this`mem, mem.Keys`color
      ensures Synced() && mem.Keys == old(mem).Keys && mem == Paint3(old(mem), p, uncle, gp)
    {
      PaintClosed(mem, p, uncle, gp);
      SetColor(p, Black);
      SetColor(uncle, Black);
      SetColor(gp, Red);
    }

    // the branch in which the parent hangs on the left
    method RotateLeftBranch(node: TreeNode, p: TreeNode, gp: TreeNode)
      requires Synced() && p in mem && gp in mem && TurnsLeft(repaired, Now(), node, p, gp).Ended?
      modifies this`root, this`mem, mem.Keys`left, mem.Keys`right, mem.Keys`parent, mem.Keys`color
      ensures Synced() && mem.Keys == old(mem).Keys && Ended(Now()) == TurnsLeft(repaired, old(Now()), node, p, gp)
    {
      if p.right == node {
        RightRotate(p);
      }
      LeftRotate(gp);
    }

    // the branch in which the parent hangs on the right
    method RotateRightBranch(node: TreeNode, p: TreeNode, gp: TreeNode)
      requires Synced() && p in mem && gp in mem && TurnsRight(repaired, Now(), node, p, gp).Ended?
      modifies this`root, this`mem, mem.Keys`left, mem.Keys`right, mem.Keys`parent, mem.Keys`color
      ensures Synced() && mem.Keys == old(mem).Keys && Ended(Now()) == TurnsRight(repaired, old(Now()), node, p, gp)
    {
      if p.left == node {
        LeftRotate(p);
      }
      RightRotate(gp);
    }

    // the body of the loop in fix_after_insert
    method FixIteration(node: TreeNode) returns (next: TreeNode)
      requires Synced() && node in mem && Iterate(repaired, Now(), node).Ended?
      modifies this`root, this`mem, mem.Keys`left, mem.Keys`right, mem.Keys`parent, mem.Keys`color
      ensures Synced() && mem.Keys == old(mem).Keys && next in mem
      ensures Ended((Now(), next)) == Iterate(repaired, old(Now()), node)
    {
      var p: TreeNode := node.parent;
      var gp: TreeNode := p.parent;
      var uncle := GetUncle(node);
      IterateIs(repaired, Now(), node, p, gp, uncle);
      if uncle != null && uncle.color == Red {
        Recolour(p, uncle, gp);
        next := gp;
      } else {
        if gp.left == p {
          RotateLeftBranch(node, p, gp);
        } else {
          RotateRightBranch(node, p, gp);
        }
        next := node;
      }
    }

    // fix_after_insert, whose loop ends within the given number of rounds
    method FixAfterInsert(node: TreeNode, ghost rounds: nat)
      requires Synced() && node in mem && FixMem(repaired, Now(), node, rounds).Ended?
      modifies this`root, this`mem, mem.Keys`left, mem.Keys`right, mem.Keys`parent, mem.Keys`color
      ensures Synced() && mem.Keys == old(mem).Keys && Ended(Now()) == FixMem(repaired, old(Now()), node, rounds)
    {
      var n := node;
      ghost var left: nat := rounds;
      while n.parent != null && n.parent.color == Red
        invariant Synced() && n in mem && mem.Keys == old(mem).Keys
        invariant FixMem(repaired, Now(), n, left) == FixMem(repaired, old(Now()), node, rounds)
        decreases left
      {
        n := FixRound(n, left);
        left := left - 1;
      }
      WritesClosed(mem, root, null, Black);
      SetColor(root, Black);
    }

    // the body, counted
    method FixRound(node: TreeNode, ghost rounds: nat) returns (next: TreeNode)
      requires Synced() && node in mem && FixMem(repaired, Now(), node, rounds).Ended? && Loops(mem, node)
      modifies this`root, this`mem, mem.Keys`left, mem.Keys`right, mem.Keys`parent, mem.Keys`color
      ensures rounds > 0 && Synced() && mem.Keys == old(mem).Keys && next in mem
      ensures FixMem(repaired, Now(), next, rounds - 1) == FixMem(repaired, old(Now()), node, rounds)
    {
      next := FixIteration(node);
    }

    // ---------- insert_tree_node ----------

    // its search loop: the slot is `root`, or the left or right of `parent`
    method Descend(key: string) returns (p: TreeNode?, parent: TreeNode?, onLeft: bool)
      requires Synced() && Find(Now(), key).Some?
      ensures Find(Now(), key) == Some(Place(p, parent, onLeft)) && Inside(mem, p) && Inside(mem, parent)
    {
      p, parent, onLeft := root, null, false;
      ghost var left := mem.Keys;
      while p != null
        invariant Inside(mem, p) && Inside(mem, parent)
        invariant Find(Now(), key) == Walk(mem, p, parent, onLeft, key, left)
        decreases |left|
      {
        var cmp := StrCmp(p.key, key);
        if cmp == 0 {
          return;
        }
        left := left - {p};
        parent, onLeft := p, cmp > 0;
        p := if cmp > 0 then p.left else p.right;
      }
    }

    // the assignments `*p = node`, `node->color`, `node->parent`
    method HangNode(node: TreeNode, parent: TreeNode?, onLeft: bool)
      requires Synced() && Inside(mem, parent) && node !in mem && node.left == null && node.right == null
      modifies this`root, this`mem, node`parent, node`color, mem.Keys`left, mem.Keys`right
      ensures Synced() && mem.Keys == old(mem).Keys + {node} && Now() == Hang(old(Now()), node, parent, onLeft)
    {
      HangClosed(Now(), node, parent, onLeft);
      if parent == null {
        root := node;
      } else if onLeft {
        SetLeft(parent, node);
      } else {
        SetRight(parent, node);
      }
      Adopt(node, parent);
    }

    method Adopt(node: TreeNode, parent: TreeNode?)
      requires InSync() && node !in mem && node.left == null && node.right == null
      modifies this`mem, node`parent, node`color
      ensures InSync() && mem == old(mem)[node := Cell(null, null, parent, Red)]
    {
      node.color := Red;
      node.parent := parent;
      mem := mem[node := Cell(null, null, parent, Red)];
    }

    // the part after the search, for a key that is not there yet: the tree
    method LinkIntoTree(node: TreeNode, parent: TreeNode?, onLeft: bool)
      requires Synced() && Inside(mem, parent) && node !in mem && node.left == null && node.right == null
      requires FixMem(repaired, Hang(Now(), node, parent, onLeft), node, |mem| + 1).Ended?
      modifies this`root, this`mem, node`parent, node`color, node`left, node`right
      modifies mem.Keys`left, mem.Keys`right, mem.Keys`parent, mem.Keys`color
      ensures Synced() && mem.Keys == old(mem).Keys + {node}
      ensures Ended(Now()) == FixMem(repaired, Hang(old(Now()), node, parent, onLeft), node, |old(mem)| + 1)
    {
      ghost var rounds := |mem| + 1;
      HangNode(node, parent, onLeft);
      FixAfterInsert(node, rounds);
    }

    /** insert_tree_node on any memory, all but the ring: whether the node was linked, and below whom. */
    method InsertIntoTree(node: TreeNode) returns (linked: bool, parent: TreeNode?)
      requires Synced() && InsertMem(repaired, Now(), node).Ended?
      requires node !in mem && node.left == null && node.right == null
      modifies this`root, this`mem, node`parent, node`color, node`left, node`right, mem.Keys
      ensures Synced() && Ended(Now()) == InsertMem(repaired, old(Now()), node)
      ensures var place := old(Find(Now(), node.key)).value;
        && parent == place.parent && (linked <==> place.node == null)
        && mem.Keys == old(mem).Keys + (if linked then {node} else {})
        && forall n <- old(mem).Keys :: n.value == if n == place.node then node.value else old(n.value)
    {
      var p, onLeft;
      p, parent, onLeft := Descend(node.key);
      InsertIs(repaired, Now(), node, Place(p, parent, onLeft));
      linked := p == null;
      if p != null {
        p.value := node.value;
      } else {
        LinkIntoTree(node, parent, onLeft);
      }
    }

    // ---------- the ring through all nodes ----------

    // list_init for the first node, list_add behind the parent for the others
    method LinkIntoRing(node: TreeNode, parent: TreeNode?, ghost ns: set<TreeNode>)
      requires OnRing(ring, ns) && node !in ns && node.list !in ring
      requires if parent == null then ring == [] else parent.list in ring
      modifies this`ring, ring, node.list
      ensures OnRing(ring, ns + {node}) && RingAfter(old(ring), ring, parent, node)
    {
      ListsOfPlus(ns, node);
      if parent == null {
        ListInit(node.list);
        ring := [node.list];
      } else {
        ghost var k :| 0 <= k < |ring| && ring[k] == parent.list;
        SplicedElements(ring, k, node.list);
        ListAdd(parent.list, node.list, ring, k);
        ring := Spliced(ring, k, node.list);
      }
    }

    /** Every linked node is on the one ring, and there is no ring without a root. */
    ghost predicate Threaded()
      reads this`root, this`mem, this`ring, ring`next, ring`prev
    {
      OnRing(ring, mem.Keys) && (root == null ==> mem.Keys == {})
    }

    /** insert_tree_node on any memory: whatever the fixup does to the tree, one ring holds every linked node. */
    method InsertAnywhere(node: TreeNode)
      requires Synced() && Threaded() && InsertMem(repaired, Now(), node).Ended?
      requires node !in mem && node.left == null && node.right == null && node.list !in ring
      modifies this`root, this`mem, this`ring, node, mem.Keys, node.list, ring
      ensures Synced() && Threaded() && Ended(Now()) == InsertMem(repaired, old(Now()), node)
      ensures var place := old(Find(Now(), node.key)).value;
        && mem.Keys == old(mem).Keys + (if place.node == null then {node} else {})
        && if place.node == null then RingAfter(old(ring), ring, place.parent, node) else ring == old(ring)
    {
      hide InsertMem, Find, SelfContained, InSync, IsRing, RingAfter, Elements;
      ghost var ns := mem.Keys;
      InsertRoot(repaired, Now(), node);
      SlotParent(Now(), node.key);
      ParentThreaded(Find(Now(), node.key).value.parent);
      var linked, parent := InsertIntoTree(node);
      if linked {
        LinkIntoRing(node, parent, ns);
      }
    }

    lemma ParentThreaded(parent: TreeNode?)
      requires Threaded() && Inside(mem, parent)
      ensures parent != null ==> parent.list in ring
      ensures mem.Keys == {} ==> ring == []
    {
      assert parent != null ==> parent.list in ListsOf(mem.Keys);
      assert forall i :: 0 <= i < |ring| ==> ring[i] in Elements(ring);
    }

    // ---------- the dictionary ----------

    /** The tree half of the invariant. */
    ghost predicate TreeValid()
      reads this`root, this`mem, this`shape, mem.Keys`left, mem.Keys`right, mem.Keys`parent, mem.Keys`color
    {
      Synced() && TreeOf(repaired, root, mem, shape)
    }

    ghost predicate Valid()
      reads this`root, this`mem, this`shape, this`ring, mem.Keys`left, mem.Keys`right, mem.Keys`parent, mem.Keys`color
      reads ring`next, ring`prev
    {
      TreeValid() && OnRing(ring, mem.Keys) && KeysUnique(mem.Keys)
    }

    /** The dictionary as a map from keys to values. */
    ghost function Contents(): map<string, Value>
      requires KeysUnique(mem.Keys)
      reads this`mem, mem.Keys`value
    {
      Entries(mem.Keys)
    }

    // dict_init
    constructor (repaired: bool)
      ensures this.repaired == repaired && Valid() && Contents() == map[] && root == null && size == 0 && mem == map[] && ring == []
    {
      this.repaired := repaired;
      root, size := null, 0;
      mem, shape, ring := map[], Leaf, [];
    }

    /** find_tree_node, on any memory in which the search ends. */
    method FindTreeNode(key: string) returns (p: TreeNode?)
      requires Synced() && Find(Now(), key).Some?
      ensures p == Find(Now(), key).value.node && Inside(mem, p)
    {
      p := root;
      ghost var left, parent, onLeft := mem.Keys, null, false;
      while p != null
        invariant Inside(mem, p)
        invariant Find(Now(), key) == Walk(mem, p, parent, onLeft, key, left)
        decreases |left|
      {
        var cmp := StrCmp(p.key, key);
        left := left - {p};
        if cmp > 0 {
          parent, onLeft := p, true;
          p := p.left;
        } else if cmp < 0 {
          parent, onLeft := p, false;
          p := p.right;
        } else {
          break;
        }
      }
    }

    /** In a dictionary that is in order the search answers the map. */
    lemma FindMeans(key: string)
      requires TreeValid() && KeysUnique(mem.Keys)
      ensures var (c, t) := Locate(shape, key); Find(Now(), key) == Some(PlaceOf(c, t))
      ensures var p := Find(Now(), key).value.node;
        if key in Contents() then p in mem && p.key == key && p.value == Contents()[key] else p == null
    {
      FindRefines(repaired, Now(), shape, key);
      LocateExact(shape, key);
      SeparateInorder(shape);
      var p := Ptr(Locate(shape, key).1);
      if p != null {
        assert p in Nodes(shape);
        EntriesAt(mem.Keys, p);
      }
    }

    // insert_tree_node on any memory without two nodes of one key: the map is updated
    method InsertMapped(node: TreeNode) returns (linked: bool, parent: TreeNode?)
      requires Synced() && InsertMem(repaired, Now(), node).Ended? && Find(Now(), node.key).Some? && KeysUnique(mem.Keys)
      requires node !in mem && node.left == null && node.right == null
      requires var q := Find(Now(), node.key).value.node;
        if q == null then KeysUnique(mem.Keys + {node}) else q in mem && q.key == node.key
      modifies this`root, this`mem, node`parent, node`color, node`left, node`right, mem.Keys
      ensures Synced() && Ended(Now()) == InsertMem(repaired, old(Now()), node)
      ensures var place := old(Find(Now(), node.key)).value;
        parent == place.parent && (linked <==> place.node == null) && mem.Keys == old(mem).Keys + (if linked then {node} else {})
      ensures KeysUnique(mem.Keys) && Contents() == old(Contents())[node.key := node.value]
    {
      hide InsertMem, Find, SelfContained, InSync;
      ghost var ns, q, contents := mem.Keys, Find(Now(), node.key).value.node, Contents();
      linked, parent := InsertIntoTree(node);
      if linked {
        assert Entries(ns) == contents;
        EntriesAdded(ns, node);
      } else {
        assert forall n <- ns, k <- ns :: n.key == k.key ==> SameKey(n, k);
        EntriesChanged(ns, contents, q);
      }
    }

    /** What an insertion as written needs: with the repair nothing, otherwise that it rotates at nodes only that name their parents. */
    ghost predicate MayInsert(node: TreeNode)
      reads this`root, this`mem
    {
      repaired || InsertsSteady(false, Now(), node)
    }

    /** What is known before an insertion into a dictionary that is in order. */
    lemma BeforeInsertion(node: TreeNode)
      requires TreeValid() && KeysUnique(mem.Keys) && MayInsert(node) && node !in mem
      ensures var r := InsertMem(repaired, Now(), node);
        && r.Ended? && IsTree(r.value) && TreeOf(repaired, r.value.root, r.value.mem, TreeIn(r.value))
        && (repaired || PathTruthful(mem, shape, node.key) ==> TreeIn(r.value) == With(shape, node))
        && (LinksTrue(root, mem) ==> (LinksTrue(r.value.root, r.value.mem) <==> repaired || Spares(shape, node)))
      ensures var (c, t) := Locate(shape, node.key); Find(Now(), node.key) == Some(PlaceOf(c, t))
      ensures var q := Find(Now(), node.key).value.node;
        if q == null then KeysUnique(mem.Keys + {node}) else q in mem && q.key == node.key
    {
      hide InsertMem, Find, With, Spares, LinksTrue, TreeOf, SelfContained, PathTruthful, InSync, InsertTurns, IsTree, Locate;
      FindMeans(node.key);
      if LinksTrue(root, mem) {
        PathsTrue(repaired, Now(), shape, node.key);
      }
      if repaired || PathTruthful(mem, shape, node.key) {
        InsertsAsShape(repaired, Now(), shape, node);
      } else {
        InsertsInOrder(Now(), shape, node);
      }
      NewKeyUnique(mem.Keys, node, Find(Now(), node.key).value.node, Contents());
    }

    // insert_tree_node in a dictionary that is in order, all but the ring
    method InsertIntoValid(node: TreeNode) returns (linked: bool, parent: TreeNode?)
      requires TreeValid() && KeysUnique(mem.Keys) && MayInsert(node)
      requires node !in mem && node.left == null && node.right == null
      modifies this`root, this`mem, this`shape, node`parent, node`color, node`left, node`right, mem.Keys
      ensures TreeValid() && KeysUnique(mem.Keys) && Contents() == old(Contents())[node.key := node.value]
      ensures Ended(Now()) == InsertMem(repaired, old(Now()), node)
      ensures repaired || old(PathTruthful(mem, shape, node.key)) ==> shape == With(old(shape), node)
      ensures old(LinksTrue(root, mem)) ==> (LinksTrue(root, mem) <==> repaired || Spares(old(shape), node))
      ensures linked <==> old(Locate(shape, node.key)).1.Leaf?
      ensures mem.Keys == old(mem).Keys + (if linked then {node} else {})
      ensures parent == ParentPtr(old(Locate(shape, node.key)).0)
    {
      hide InsertMem, Find, With, Locate, LinksTrue, Spares, TreeOf, SelfContained, PathTruthful, InSync, InsertTurns, IsTree;
      BeforeInsertion(node);
      linked, parent := InsertMapped(node);
      shape := TreeIn(Now());
    }

    // the list_init or list_add of insert_tree_node; neither touches the tree
    method JoinRing(node: TreeNode, parent: TreeNode?, ghost ns: set<TreeNode>)
      requires TreeValid() && KeysUnique(mem.Keys) && mem.Keys == ns + {node}
      requires OnRing(ring, ns) && node !in ns && node.list !in ring
      requires if parent == null then ring == [] else parent.list in ring
      modifies this`ring, ring, node.list
      ensures Valid() && Contents() == old(Contents()) && RingAfter(old(ring), ring, parent, node)
    {
      hide TreeOf, SelfContained, InSync, IsRing, RingAfter;
      LinkIntoRing(node, parent, ns);
    }

    /**
     * insert_tree_node. For a key that is there only its value changes (the new node is dropped);
     * otherwise the node is linked into tree and ring.
     */
    method InsertTreeNode(node: TreeNode)
      requires Valid() && MayInsert(node)
      requires node !in mem && node.left == null && node.right == null && node.list !in ring
      modifies this`root, this`mem, this`shape, this`ring, node, mem.Keys, node.list, ring
      ensures Valid() && Contents() == old(Contents())[node.key := old(node.value)]
      ensures mem.Keys <= old(mem).Keys + {node}
      ensures repaired || old(PathTruthful(mem, shape, node.key)) ==> shape == With(old(shape), node)
      ensures Ended(Now()) == InsertMem(repaired, old(Now()), node)
      ensures old(LinksTrue(root, mem)) ==> (LinksTrue(root, mem) <==> repaired || Spares(old(shape), node))
      ensures var (c, t) := old(Locate(shape, node.key));
        if t.Fork? then ring == old(ring) else RingAfter(old(ring), ring, ParentPtr(c), node)
    {
      hide InsertMem, With, Spares, Locate, TreeOf, LinksTrue, SelfContained, IsRing, InSync, RingAfter;
      ghost var ns := mem.Keys;
      ParentOnRing(node.key);
      var linked, parent := InsertIntoValid(node);
      if linked {
        JoinRing(node, parent, ns);
      }
    }

    /** On a truthful search path an insertion keeps the tree. */
    lemma SteadyOnPath(node: TreeNode)
      requires TreeValid() && node !in mem && (repaired || PathTruthful(mem, shape, node.key))
      ensures MayInsert(node)
    {
      hide InsertMem, InsertTurns, PathTruthful, TreeOf;
      if !repaired {
        InsertRefines(repaired, Now(), shape, node);
      }
    }

    // dict_set
    method DictSet(key: string, value: Value)
      requires Valid() && |key| < 128 && (repaired || PathTruthful(mem, shape, key))
      modifies this, mem.Keys, ring
      ensures Valid() && size == old(size) && Contents() == old(Contents())[key := value]
      ensures fresh(mem.Keys - old(mem).Keys) && fresh(Elements(ring) - old(Elements(ring)))
    {
      hide InsertMem, With, Spares, Locate;
      var node := new TreeNode(key, value);
      ghost var ns := mem.Keys;
      SteadyOnPath(node);
      InsertTreeNode(node);
      ListsOfPlus(ns, node);
    }

    // dict_has
    method DictHas(key: string) returns (r: bool)
      requires Valid()
      ensures r <==> key in Contents()
    {
      FindMeans(key);
      var p := FindTreeNode(key);
      r := p != null;
    }

    // dict_get: `None` stands for the return code -1
    method DictGet(key: string) returns (r: Option<Value>)
      requires Valid()
      ensures r == if key in Contents() then Some(Contents()[key]) else None
    {
      FindMeans(key);
      var p := FindTreeNode(key);
      if p == null {
        r := None;
      } else {
        r := Some(p.value);
      }
    }

    // tree_foreach from any node visits every linked node once
    method TreeForeach(node: TreeNode) returns (visited: seq<Link<TreeNode?>>)
      requires Valid() && node in mem
      ensures Pairwise(visited) && Elements(visited) == ListsOf(mem.Keys)
      ensures visited != [] && visited[0] == node.list
    {
      assert node.list in Elements(ring) by { assert node.list in ListsOf(mem.Keys); }
      ghost var k :| 0 <= k < |ring| && ring[k] == node.list;
      RingMeans(ring);
      visited := ListForeach(node.list, ring, k);
    }

    lemma ParentOnRing(key: string)
      requires Valid()
      ensures var (c, t) := Locate(shape, key);
        t.Leaf? ==> if c.Top? then ring == [] else c.node.list in ring
    {
      if Locate(shape, key).1.Leaf? {
        ParentLinked(Locate(shape, key).0, key);
      }
    }

    lemma ParentLinked(c: Ctx, key: string)
      requires Valid() && Locate(shape, key) == (c, Leaf)
      ensures if c.Top? then ring == [] else c.node.list in ring
    {
      SlotFound(repaired, root, mem, shape, c, key);
      assert c.Top? ==> forall i :: 0 <= i < |ring| ==> ring[i] in Elements(ring);
      assert !c.Top? ==> c.node.list in ListsOf(mem.Keys);
    }
  }

  /** On a truthful search path, or with the repair, an insertion leaves the tree that it yields on shapes. */
  lemma InsertsAsShape(repaired: bool, h: Image, shape: Shape, node: TreeNode)
    requires TreeOf(repaired, h.root, h.mem, shape) && node !in h.mem && (repaired || PathTruthful(h.mem, shape, node.key))
    ensures var r := InsertMem(repaired, h, node);
      && r.Ended? && IsTree(r.value) && TreeIn(r.value) == With(shape, node) && TreeOf(repaired, r.value.root, r.value.mem, With(shape, node))
      && (LinksTrue(h.root, h.mem) ==> (LinksTrue(r.value.root, r.value.mem) <==> repaired || Spares(shape, node)))
  {
    hide InsertMem, With, Spares, LinksTrue, PathTruthful, SameParents, Locate;
    InsertRefines(repaired, h, shape, node);
    var r := InsertMem(repaired, h, node).value;
    SortedSeparate(With(shape, node));
    HoldsMeans(r, With(shape, node));
  }

  lemma InsertsInOrder(h: Image, shape: Shape, node: TreeNode)
    requires TreeOf(false, h.root, h.mem, shape) && SelfContained(h) && node !in h.mem && InsertsSteady(false, h, node)
    ensures var r := InsertMem(false, h, node);
      r.Ended? && IsTree(r.value) && TreeOf(false, r.value.root, r.value.mem, TreeIn(r.value))
  {
    hide InsertMem, InsertTurns, SelfContained;
    SortedSeparate(shape);
    HoldsMeans(h, shape);
    InsertKeeps(false, h, node);
  }

  /** An empty slot is the root or the child of a node. */
  lemma {:induction false} WalkSlot(m: Mem, p: TreeNode?, parent: TreeNode?, onLeft: bool, key: string, left: set<TreeNode>)
    requires Enclosed(m) && Inside(m, p) && Inside(m, parent) && Walk(m, p, parent, onLeft, key, left).Some?
    ensures var place := Walk(m, p, parent, onLeft, key, left).value;
      Inside(m, place.parent) && (place.node == null && place.parent == null ==> p == null)
    decreases |left|
  {
    if p != null && StrCmp(p.key, key) > 0 {
      WalkSlot(m, Get(m, p).left, p, true, key, left - {p});
    } else if p != null && StrCmp(p.key, key) < 0 {
      WalkSlot(m, Get(m, p).right, p, false, key, left - {p});
    }
  }

  lemma SlotParent(h: Image, key: string)
    requires SelfContained(h) && Find(h, key).Some?
    ensures var place := Find(h, key).value;
      Inside(h.mem, place.parent) && (place.node == null && place.parent == null ==> h.root == null)
  {
    WalkSlot(h.mem, h.root, null, false, key, h.mem.Keys);
  }

  lemma {:induction false} LoopRoot(body: Body, h: Image, node: TreeNode, rounds: nat)
    requires LoopMem(body, h, node, rounds).Ended?
    ensures LoopMem(body, h, node, rounds).value.root != null
    decreases rounds
  {
    if Loops(h.mem, node) {
      LoopRoot(body, body(h, node).value.0, body(h, node).value.1, rounds - 1);
    }
  }

  /** After an insertion there is a root. */
  lemma InsertRoot(repaired: bool, h: Image, node: TreeNode)
    requires InsertMem(repaired, h, node).Ended?
    ensures Find(h, node.key).Some? && InsertMem(repaired, h, node).value.root != null
  {
    hide LoopMem;
    var place := Find(h, node.key).value;
    if place.node == null {
      LoopRoot(FixBody(repaired), Hang(h, node, place.parent, place.onLeft), node, |h.mem| + 1);
    }
  }

  ghost function Entries(ns: set<TreeNode>): map<string, Value>
    requires KeysUnique(ns)
    reads ns`value
  {
    assert forall n <- ns, k <- ns :: n.key == k.key ==> SameKey(n, k);
    map n | n in ns :: n.key := n.value
  }

  lemma EntriesAdded(ns: set<TreeNode>, node: TreeNode)
    requires KeysUnique(ns + {node})
    ensures Entries(ns + {node}) == Entries(ns)[node.key := node.value]
  {
    assert forall n <- ns + {node}, k <- ns + {node} :: n.key == k.key ==> SameKey(n, k);
  }

  lemma EntriesAt(ns: set<TreeNode>, n: TreeNode)
    requires KeysUnique(ns) && n in ns
    ensures n.key in Entries(ns) && Entries(ns)[n.key] == n.value
  {
    assert forall k <- ns :: n.key == k.key ==> SameKey(n, k);
  }

  lemma NewKeyUnique(ns: set<TreeNode>, node: TreeNode, q: TreeNode?, contents: map<string, Value>)
    requires KeysUnique(ns) && contents.Keys == (set n <- ns :: n.key)
    requires if node.key in contents then q != null else q == null
    ensures q == null ==> KeysUnique(ns + {node})
  {
  }

  /** The ring consists of the links of the nodes `ns`. */
  ghost predicate OnRing(ring: seq<Link<TreeNode?>>, ns: set<TreeNode>)
    reads ring`next, ring`prev
  {
    Elements(ring) == ListsOf(ns) && (ring != [] ==> IsRing(ring))
  }

  ghost function ListsOf(ns: set<TreeNode>): set<Link<TreeNode?>> {
    set n <- ns :: n.list
  }

  lemma ListsOfPlus(ns: set<TreeNode>, node: TreeNode)
    ensures ListsOf(ns + {node}) == ListsOf(ns) + {node.list}
  {
  }

  /** The same nodes with the value at one of them replaced. */
  lemma EntriesChanged(ns: set<TreeNode>, before: map<string, Value>, p: TreeNode)
    requires KeysUnique(ns) && p in ns
    requires before.Keys == (set n <- ns :: n.key) && forall n <- ns :: n != p ==> before[n.key] == n.value
    ensures Entries(ns) == before[p.key := p.value]
  {
    assert forall n <- ns, k <- ns :: n.key == k.key ==> SameKey(n, k);
  }

  /** The map that a sequence of `dict_set` calls stands for. */
  function Replay(ops: seq<(string, Value)>): map<string, Value> {
    if ops == [] then map[] else Replay(ops[..|ops| - 1])[ops[|ops| - 1].0 := ops[|ops| - 1].1]
  }

  /** It holds, for every key ever set, the value of the last call with that key, and nothing else. */
  lemma {:induction false} ReplayLast(ops: seq<(string, Value)>, key: string)
    ensures key in Replay(ops) <==> exists i :: 0 <= i < |ops| && ops[i].0 == key
    ensures forall i :: 0 <= i < |ops| && ops[i].0 == key && (forall j :: i < j < |ops| ==> ops[j].0 != key) ==>
      Replay(ops)[key] == ops[i].1
  {
    if ops != [] {
      var r := ops[..|ops| - 1];
      ReplayLast(r, key);
      assert forall i :: 0 <= i < |r| ==> r[i] == ops[i];
      if key in Replay(r) {
        var i :| 0 <= i < |r| && r[i].0 == key;
        assert ops[i].0 == key;
      }
    }
  }

  // any run of dict_set on a fresh dictionary with the repair
  method Load(ops: seq<(string, Value)>) returns (d: Dict)
    requires forall i :: 0 <= i < |ops| ==> |ops[i].0| < 128
    ensures d.Valid() && d.repaired && d.Contents() == Replay(ops)
  {
    hide TreeOf, SelfContained, LinksTrue, IsRing;
    d := new Dict(true);
    for n := 0 to |ops|
      invariant d.repaired && d.Valid() && fresh(d) && fresh(d.mem.Keys) && fresh(Elements(d.ring))
      invariant d.Contents() == Replay(ops[..n])
    {
      LoadOne(d, ops[n].0, ops[n].1);
      assert ops[..n + 1][..n] == ops[..n];
    }
    assert ops[..|ops|] == ops;
  }

  method LoadOne(d: Dict, key: string, value: Value)
    requires d.Valid() && d.repaired && |key| < 128
    modifies d, d.mem.Keys, Elements(d.ring)
    ensures d.Valid() && d.Contents() == old(d.Contents())[key := value]
    ensures fresh(d.mem.Keys - old(d.mem).Keys) && fresh(Elements(d.ring) - old(Elements(d.ring)))
  {
    assert forall i :: 0 <= i < |d.ring| ==> d.ring[i] in Elements(d.ring);
    d.DictSet(key, value);
  }

  /** After any run of `dict_set` the links are truthful and every lookup sees the last write of its key. */
  method Run(ops: seq<(string, Value)>, key: string) returns (d: Dict, has: bool, value: Option<Value>)
    requires forall i :: 0 <= i < |ops| ==> |ops[i].0| < 128
    ensures d.Valid() && LinksTrue(d.root, d.mem)
    ensures d.Contents() == Replay(ops)
    ensures has <==> key in Replay(ops)
    ensures value == if key in Replay(ops) then Some(Replay(ops)[key]) else None
  {
    hide IsRing, SelfContained, Replay;
    d := Load(ops);
    has := d.DictHas(key);
    value := d.DictGet(key);
  }

  /** A new node comes directly behind its parent. */
  ghost predicate RingAfter(before: seq<Link<TreeNode?>>, after: seq<Link<TreeNode?>>, parent: TreeNode?, node: TreeNode) {
    if parent == null then after == [node.list]
    else exists k :: 0 <= k < |before| && before[k] == parent.list && after == Spliced(before, k, node.list)
  }
}
