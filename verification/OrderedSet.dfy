/** The ordered set: an AVL tree of heap nodes, rewritten in place. */
module OrderedSet {
  import opened Bits
  import opened Common
  import AvlTree

  /** A tree node. A pointer to an element is a pointer to the node that stores it, so
      a caller's key may lie in a node of the tree itself. */
  class Node<T> {
    var left: Node?<T>
    var right: Node?<T>
    var height: int
    var data: T
    /** Cleared when the node is given back to the allocator. */
    ghost var live: bool

    constructor (data: T)
      ensures left == null && right == null && height == 1 && live && this.data == data
    {
      left, right, height, this.data, live := null, null, 1, data, true;
    }
  }

  type Shape<T> = AvlTree.Tree<Node<T>, T>

  /** How many places of the heap, from `p` down, differ from what `t` says. */
  ghost function Mismatches<T>(p: Node?<T>, t: Shape<T>): nat
    reads AvlTree.Nodes(t)
    decreases t
  {
    match t
    case Leaf => if p == null then 0 else 1
    case Branch(n, l, v, h, r) =>
      (if p == n && n.live && n.data == v && n.height == h then 0 else 1)
      + Mismatches(n.left, l) + Mismatches(n.right, r)
  }

  /** The heap from `p` down is laid out as `t` says, in live nodes. */
  ghost predicate Linked<T>(p: Node?<T>, t: Shape<T>)
    reads AvlTree.Nodes(t)
  {
    Mismatches(p, t) == 0
  }

  /** All of these nodes have been freed. */
  ghost predicate Dead<T>(ns: set<Node<T>>)
    reads ns
  {
    forall n :: n in ns ==> !n.live
  }

  function NodeHeight<T>(p: Node?<T>): int
    reads p
  {
    if p == null then 0 else p.height
  }

  function GetBalance<T>(p: Node?<T>): int
    reads p, if p == null then {} else {p.left, p.right}
  {
    if p == null then 0 else NodeHeight(p.left) - NodeHeight(p.right)
  }

  lemma {:induction false} NodesAllocated<T>(t: Shape<T>)
    ensures forall n :: n in AvlTree.Nodes(t) ==> allocated(n)
  {
    if t.Branch? {
      NodesAllocated(t.left);
      NodesAllocated(t.right);
    }
  }

  lemma {:induction false} Open<T>(p: Node?<T>, t: Shape<T>)
    requires Linked(p, t) && t.Branch?
    ensures p == t.node && t.node.live && t.node.data == t.value && t.node.height == t.height
    ensures Linked(t.node.left, t.left) && Linked(t.node.right, t.right)
  {
  }

  lemma {:induction false} HeightOfLinked<T>(p: Node?<T>, t: Shape<T>)
    requires Linked(p, t)
    ensures NodeHeight(p) == AvlTree.Height(t)
    ensures GetBalance(p) == AvlTree.Balance(t)
  {
    if t.Branch? {
      Open(p, t);
      if t.left.Branch? { Open(p.left, t.left); }
      if t.right.Branch? { Open(p.right, t.right); }
    }
  }

  /** `node->height = max(height of left, height of right) + 1` completes a branch. */
  method UpdateHeight<T>(node: Node<T>, ghost l: Shape<T>, ghost r: Shape<T>)
    requires node.live && Linked(node.left, l) && Linked(node.right, r)
    requires node !in AvlTree.Nodes(l) && node !in AvlTree.Nodes(r)
    modifies node`height
    ensures Linked(node, AvlTree.Join(node, l, node.data, r))
  {
    HeightOfLinked(node.left, l);
    HeightOfLinked(node.right, r);
    node.height := Max(NodeHeight(node.left), NodeHeight(node.right)) + 1;
  }

  /** Stores what a recursive call returned and completes the branch. */
  method AttachLeft<T>(node: Node<T>, child: Node?<T>, ghost l: Shape<T>, ghost r: Shape<T>, ghost gone: set<Node<T>>)
    requires node.live && Linked(child, l) && Linked(node.right, r) && Dead(gone)
    requires node !in AvlTree.Nodes(l) && node !in AvlTree.Nodes(r)
    modifies node`left, node`height
    ensures Linked(node, AvlTree.Join(node, l, node.data, r)) && Dead(gone)
  {
    NodesAllocated(l);
    NodesAllocated(r);
    node.left := child;
    UpdateHeight(node, l, r);
  }

  method AttachRight<T>(node: Node<T>, child: Node?<T>, ghost l: Shape<T>, ghost r: Shape<T>, ghost gone: set<Node<T>>)
    requires node.live && Linked(node.left, l) && Linked(child, r) && Dead(gone)
    requires node !in AvlTree.Nodes(l) && node !in AvlTree.Nodes(r)
    modifies node`right, node`height
    ensures Linked(node, AvlTree.Join(node, l, node.data, r)) && Dead(gone)
  {
    NodesAllocated(l);
    NodesAllocated(r);
    node.right := child;
    UpdateHeight(node, l, r);
  }

  method RotateRight<T>(y: Node<T>, ghost t: Shape<T>) returns (x: Node<T>)
    requires Linked(y, t) && AvlTree.Distinct(t) && t.Branch? && t.left.Branch?
    modifies t.node`left, t.node`height, t.left.node`right, t.left.node`height
    ensures Linked(x, AvlTree.RotateRight(t))
  {
    Open(y, t);
    Open(y.left, t.left);
    AvlTree.LeftPartsDisjoint(t);
    NodesAllocated(t.left.left);
    x := y.left;
    var t2 := x.right;
    x.right := y;
    y.left := t2;
    UpdateHeight(y, t.left.right, t.right);
    UpdateHeight(x, t.left.left, AvlTree.Join(t.node, t.left.right, t.value, t.right));
  }

  method RotateLeft<T>(x: Node<T>, ghost t: Shape<T>) returns (y: Node<T>)
    requires Linked(x, t) && AvlTree.Distinct(t) && t.Branch? && t.right.Branch?
    modifies t.node`right, t.node`height, t.right.node`left, t.right.node`height
    ensures Linked(y, AvlTree.RotateLeft(t))
  {
    Open(x, t);
    Open(x.right, t.right);
    AvlTree.RightPartsDisjoint(t);
    NodesAllocated(t.right.right);
    y := x.right;
    var t2 := y.left;
    y.left := x;
    x.right := t2;
    UpdateHeight(x, t.left, t.right.left);
    UpdateHeight(y, AvlTree.Join(t.node, t.left, t.value, t.right.left), t.right.right);
  }

  /** `node.left = rotateLeft(node.left)`, then rotateRight(node). */
  method RotateLeftRight<T>(node: Node<T>, ghost t: Shape<T>) returns (r: Node<T>)
    requires Linked(node, t) && AvlTree.Distinct(t) && t.Branch? && t.left.Branch? && t.left.right.Branch?
    modifies AvlTree.Nodes(t)`left, AvlTree.Nodes(t)`right, AvlTree.Nodes(t)`height
    ensures Linked(r, AvlTree.RotateRight(t.(left := AvlTree.RotateLeft(t.left))))
  {
    ghost var l := AvlTree.RotateLeft(t.left);
    RotateChildLeft(node, t);
    AvlTree.RotateLeftContents(t.left);
    AvlTree.LeftReplacedDistinct(t, l);
    r := RotateRight(node, t.(left := l));
  }

  method RotateChildLeft<T>(node: Node<T>, ghost t: Shape<T>)
    requires Linked(node, t) && AvlTree.Distinct(t) && t.Branch? && t.left.Branch? && t.left.right.Branch?
    modifies t.node`left, AvlTree.Nodes(t.left)`left, AvlTree.Nodes(t.left)`right, AvlTree.Nodes(t.left)`height
    ensures Linked(node, t.(left := AvlTree.RotateLeft(t.left)))
  {
    Open(node, t);
    AvlTree.Unfold(t);
    AvlTree.RotateLeftContents(t.left);
    AvlTree.Unfold(t.left);
    NodesAllocated(t.right);
    var child := RotateLeft(node.left, t.left);
    node.left := child;
  }

  /** `node.right = rotateRight(node.right)`, then rotateLeft(node). */
  method RotateRightLeft<T>(node: Node<T>, ghost t: Shape<T>) returns (r: Node<T>)
    requires Linked(node, t) && AvlTree.Distinct(t) && t.Branch? && t.right.Branch? && t.right.left.Branch?
    modifies AvlTree.Nodes(t)`left, AvlTree.Nodes(t)`right, AvlTree.Nodes(t)`height
    ensures Linked(r, AvlTree.RotateLeft(t.(right := AvlTree.RotateRight(t.right))))
  {
    ghost var u := AvlTree.RotateRight(t.right);
    RotateChildRight(node, t);
    AvlTree.RotateRightContents(t.right);
    AvlTree.RightReplacedDistinct(t, u);
    r := RotateLeft(node, t.(right := u));
  }

  method RotateChildRight<T>(node: Node<T>, ghost t: Shape<T>)
    requires Linked(node, t) && AvlTree.Distinct(t) && t.Branch? && t.right.Branch? && t.right.left.Branch?
    modifies t.node`right, AvlTree.Nodes(t.right)`left, AvlTree.Nodes(t.right)`right, AvlTree.Nodes(t.right)`height
    ensures Linked(node, t.(right := AvlTree.RotateRight(t.right)))
  {
    Open(node, t);
    AvlTree.Unfold(t);
    AvlTree.RotateRightContents(t.right);
    AvlTree.Unfold(t.right);
    NodesAllocated(t.left);
    var child := RotateRight(node.right, t.right);
    node.right := child;
  }

  method MinValueNode<T>(node: Node<T>, ghost t: Shape<T>) returns (curr: Node<T>)
    requires Linked(node, t) && t.Branch?
    ensures curr in AvlTree.Nodes(t) && curr.live && curr.data == AvlTree.MinValue(t)
  {
    curr := node;
    ghost var u := t;
    Open(node, t);
    while curr.left != null
      invariant u.Branch? && Linked(curr, u) && AvlTree.Nodes(u) <= AvlTree.Nodes(t)
      invariant curr == u.node && curr.live && curr.data == u.value && Linked(curr.left, u.left)
      invariant AvlTree.MinValue(u) == AvlTree.MinValue(t)
      decreases u
    {
      Open(curr.left, u.left);
      curr, u := curr.left, u.left;
    }
  }

  /** The comparator is a total preorder; `rank` numbers its classes in order. */
  class OrderedSet<T> {
    const rank: T -> int
    var root: Node?<T>
    var size: nat
    ghost var tree: Shape<T>

    ghost predicate Valid()
      reads this, AvlTree.Nodes(tree)
    {
      AvlTree.Distinct(tree) && Linked(root, tree) && AvlTree.Avl(tree, rank) && size == AvlTree.Size(tree)
    }

    ghost function Elements(): set<T>
      reads this
    {
      AvlTree.Values(tree)
    }

    /** Some element compares equal to `v`. */
    ghost predicate Contains(v: T)
      reads this
    {
      AvlTree.Member(tree, rank, rank(v))
    }

    constructor (rank: T -> int)
      ensures Valid() && Elements() == {} && this.rank == rank
    {
      this.rank, root, size, tree := rank, null, 0, AvlTree.Leaf;
    }

    function Compare(a: Node<T>, b: Node<T>): (cmp: int)
      requires a.live && b.live
      reads a, b
      ensures cmp < 0 <==> rank(a.data) < rank(b.data)
      ensures cmp == 0 <==> rank(a.data) == rank(b.data)
    {
      rank(a.data) - rank(b.data)
    }

    /** The part of insertion after the height update: balance and the four cases. */
    method InsertRebalance(node: Node<T>, key: Node<T>, ghost t: Shape<T>) returns (r: Node<T>)
      requires Linked(node, t) && AvlTree.Distinct(t) && key.live
      requires AvlTree.InsertFixSafe(t, key.data, rank)
      modifies AvlTree.Nodes(t)`left, AvlTree.Nodes(t)`right, AvlTree.Nodes(t)`height
      ensures Linked(r, AvlTree.InsertFix(t, key.data, rank))
    {
      var balance := GetBalance(node);
      HeightOfLinked(node, t);
      Open(node, t);
      if t.left.Branch? { Open(node.left, t.left); }
      if t.right.Branch? { Open(node.right, t.right); }
      if balance > 1 && Compare(key, node.left) < 0 {
        r := RotateRight(node, t);
      } else if balance < -1 && Compare(key, node.right) > 0 {
        r := RotateLeft(node, t);
      } else if balance > 1 && Compare(key, node.left) > 0 {
        r := RotateLeftRight(node, t);
      } else if balance < -1 && Compare(key, node.right) < 0 {
        r := RotateRightLeft(node, t);
      } else {
        r := node;
      }
    }

    /** Insertion into the left subtree, up to and including the height update. */
    method InsertLeft(node: Node<T>, key: Node<T>, allocOk: bool, ghost t: Shape<T>)
      returns (inserted: bool, ghost n: Node<T>)
      requires Linked(node, t) && AvlTree.Distinct(t) && AvlTree.Avl(t, rank) && key.live
      requires t.Branch? && rank(key.data) < rank(t.value)
      modifies AvlTree.Nodes(t)`left, AvlTree.Nodes(t)`right, AvlTree.Nodes(t)`height
      ensures inserted <==> !AvlTree.Member(t, rank, rank(key.data))
      ensures inserted && allocOk ==> fresh(n)
      ensures Linked(node, AvlTree.Join(t.node, AvlTree.InsertIf(t.left, key.data, n, rank, allocOk), t.value, t.right))
      decreases t, 0
    {
      AvlTree.MemberSide(t, rank, rank(key.data));
      Open(node, t);
      NodesAllocated(t);
      NodesAllocated(t.right);
      var l;
      l, inserted, n := InsertRecursive(node.left, key, allocOk, t.left);
      AvlTree.InsertIfLeft(t, key.data, n, rank, allocOk);
      AttachLeft(node, l, AvlTree.InsertIf(t.left, key.data, n, rank, allocOk), t.right, {});
    }

    method InsertRight(node: Node<T>, key: Node<T>, allocOk: bool, ghost t: Shape<T>)
      returns (inserted: bool, ghost n: Node<T>)
      requires Linked(node, t) && AvlTree.Distinct(t) && AvlTree.Avl(t, rank) && key.live
      requires t.Branch? && rank(key.data) > rank(t.value)
      modifies AvlTree.Nodes(t)`left, AvlTree.Nodes(t)`right, AvlTree.Nodes(t)`height
      ensures inserted <==> !AvlTree.Member(t, rank, rank(key.data))
      ensures inserted && allocOk ==> fresh(n)
      ensures Linked(node, AvlTree.Join(t.node, t.left, t.value, AvlTree.InsertIf(t.right, key.data, n, rank, allocOk)))
      decreases t, 0
    {
      AvlTree.MemberSide(t, rank, rank(key.data));
      Open(node, t);
      NodesAllocated(t);
      NodesAllocated(t.left);
      var r;
      r, inserted, n := InsertRecursive(node.right, key, allocOk, t.right);
      AvlTree.InsertIfRight(t, key.data, n, rank, allocOk);
      AttachRight(node, r, t.left, AvlTree.InsertIf(t.right, key.data, n, rank, allocOk), {});
    }

    /** Reports an insertion even when the node could not be allocated. */
    method InsertRecursive(node: Node?<T>, key: Node<T>, allocOk: bool, ghost t: Shape<T>)
      returns (r: Node?<T>, inserted: bool, ghost n: Node<T>)
      requires Linked(node, t) && AvlTree.Distinct(t) && AvlTree.Avl(t, rank) && key.live
      modifies AvlTree.Nodes(t)`left, AvlTree.Nodes(t)`right, AvlTree.Nodes(t)`height
      ensures inserted <==> !AvlTree.Member(t, rank, rank(key.data))
      ensures inserted && allocOk ==> fresh(n)
      ensures Linked(r, AvlTree.InsertIf(t, key.data, n, rank, allocOk))
      decreases t, 1
    {
      if node == null {
        inserted := true;
        if allocOk {
          r := new Node(key.data);
          n := r;
        } else {
          r, n := null, key;
        }
        return;
      }
      Open(node, t);
      var cmp := Compare(key, node);
      NodesAllocated(t);
      if cmp < 0 {
        inserted, n := InsertLeft(node, key, allocOk, t);
        AvlTree.InsertIfLeft(t, key.data, n, rank, allocOk);
        r := InsertRebalance(node, key, AvlTree.Join(t.node, AvlTree.InsertIf(t.left, key.data, n, rank, allocOk), t.value, t.right));
      } else if cmp > 0 {
        inserted, n := InsertRight(node, key, allocOk, t);
        AvlTree.InsertIfRight(t, key.data, n, rank, allocOk);
        r := InsertRebalance(node, key, AvlTree.Join(t.node, t.left, t.value, AvlTree.InsertIf(t.right, key.data, n, rank, allocOk)));
      } else {
        AvlTree.MemberSide(t, rank, rank(key.data));
        return node, false, node;
      }
    }

    /** Makes `r` the root of the set; `u` is its shape. Nodes freed before stay freed. */
    method Install(r: Node?<T>, ghost u: Shape<T>, newSize: nat, ghost gone: set<Node<T>>)
      requires Dead(gone)
      requires Linked(r, u) && AvlTree.Distinct(u) && AvlTree.Avl(u, rank) && newSize == AvlTree.Size(u)
      modifies `root, `tree, `size
      ensures Valid() && tree == u && size == newSize && Dead(gone)
    {
      NodesAllocated(u);
      root, tree, size := r, u, newSize;
    }

    /** The key may be an element of this very set. If a node is needed and cannot be
        allocated, the elements stay, but the insertion is reported and counted. */
    method Insert(key: Node<T>, allocOk: bool) returns (inserted: bool)
      requires Valid() && key.live
      modifies this, AvlTree.Nodes(tree)`left, AvlTree.Nodes(tree)`right, AvlTree.Nodes(tree)`height
      ensures Valid() <==> allocOk || !inserted
      ensures inserted <==> !old(Contains(key.data))
      ensures Elements() == old(Elements()) + if inserted && allocOk then {key.data} else {}
      ensures size == old(size) + if inserted then 1 else 0
      ensures fresh(AvlTree.Nodes(tree) - old(AvlTree.Nodes(tree)))
    {
      NodesAllocated(tree);
      var r;
      ghost var n;
      r, inserted, n := InsertRecursive(root, key, allocOk, tree);
      if allocOk {
        InsertResult(tree, key.data, n, rank);
        Install(r, AvlTree.Insert(tree, key.data, n, rank), if inserted then size + 1 else size, {});
      } else {
        root, size := r, if inserted then size + 1 else size;
      }
    }

    /** Frees a node: from here on nothing may read it. */
    method FreeNode(n: Node<T>)
      modifies n`live
      ensures !n.live
    {
      n.live := false;
    }

    /** The part of removal after the height update: balance and the four cases. */
    method RemoveRebalance(node: Node<T>, ghost t: Shape<T>) returns (r: Node<T>)
      requires Linked(node, t) && AvlTree.Distinct(t) && AvlTree.RemoveFixSafe(t)
      modifies AvlTree.Nodes(t)`left, AvlTree.Nodes(t)`right, AvlTree.Nodes(t)`height
      ensures Linked(r, AvlTree.RemoveFix(t))
    {
      var balance := GetBalance(node);
      HeightOfLinked(node, t);
      Open(node, t);
      HeightOfLinked(node.left, t.left);
      HeightOfLinked(node.right, t.right);
      if balance > 1 && GetBalance(node.left) >= 0 {
        r := RotateRight(node, t);
      } else if balance > 1 && GetBalance(node.left) < 0 {
        r := RotateLeftRight(node, t);
      } else if balance < -1 && GetBalance(node.right) <= 0 {
        r := RotateLeft(node, t);
      } else if balance < -1 && GetBalance(node.right) > 0 {
        r := RotateRightLeft(node, t);
      } else {
        r := node;
      }
    }

    /** Removal from the left subtree, up to and including the height update. */
    method RemoveLeft(node: Node<T>, key: Node<T>, ghost t: Shape<T>) returns (removed: bool)
      requires Linked(node, t) && AvlTree.Distinct(t) && AvlTree.Avl(t, rank) && key.live
      requires t.Branch? && rank(key.data) < rank(t.value)
      modifies AvlTree.Nodes(t)
      ensures removed <==> AvlTree.Member(t, rank, rank(old(key.data)))
      ensures Linked(node, AvlTree.Join(t.node, AvlTree.Remove(t.left, rank(old(key.data)), rank), t.value, t.right))
      ensures Dead(AvlTree.Freed(t.left, rank(old(key.data)), rank))
      decreases t, 0
    {
      Open(node, t);
      AvlTree.Unfold(t);
      NodesAllocated(t);
      NodesAllocated(t.right);
      ghost var k := rank(key.data);
      AvlTree.MemberSide(t, rank, k);
      AvlTree.RemoveNodes(t.left, k, rank);
      var l;
      l, removed := RemoveRecursive(node.left, key, t.left);
      AttachLeft(node, l, AvlTree.Remove(t.left, k, rank), t.right, AvlTree.Freed(t.left, k, rank));
    }

    method RemoveRight(node: Node<T>, key: Node<T>, ghost t: Shape<T>) returns (removed: bool)
      requires Linked(node, t) && AvlTree.Distinct(t) && AvlTree.Avl(t, rank) && key.live
      requires t.Branch? && rank(key.data) > rank(t.value)
      modifies AvlTree.Nodes(t)
      ensures removed <==> AvlTree.Member(t, rank, rank(old(key.data)))
      ensures Linked(node, AvlTree.Join(t.node, t.left, t.value, AvlTree.Remove(t.right, rank(old(key.data)), rank)))
      ensures Dead(AvlTree.Freed(t.right, rank(old(key.data)), rank))
      decreases t, 0
    {
      Open(node, t);
      AvlTree.Unfold(t);
      NodesAllocated(t);
      NodesAllocated(t.left);
      ghost var k := rank(key.data);
      AvlTree.MemberSide(t, rank, k);
      AvlTree.RemoveNodes(t.right, k, rank);
      var r;
      r, removed := RemoveRecursive(node.right, key, t.right);
      AttachRight(node, r, t.left, AvlTree.Remove(t.right, k, rank), AvlTree.Freed(t.right, k, rank));
    }

    /** The branch has one child: it takes over the child's contents and frees its node. */
    method AbsorbChild(node: Node<T>, temp: Node<T>, ghost t: Shape<T>, ghost c: Shape<T>)
      requires Linked(node, t) && AvlTree.Distinct(t) && t.Branch? && c.Branch?
      requires (c == t.left && t.right.Leaf?) || (c == t.right && t.left.Leaf?)
      requires temp == c.node
      modifies t.node, c.node
      ensures Linked(node, AvlTree.Join(t.node, c.left, c.value, c.right))
      ensures !c.node.live
    {
      Open(node, t);
      Open(temp, c);
      AvlTree.OnlyChildDisjoint(t, c);
      NodesAllocated(c.left);
      NodesAllocated(c.right);
      node.data := temp.data;
      node.left := temp.left;
      node.right := temp.right;
      node.height := temp.height;
      FreeNode(temp);
      UpdateHeight(node, c.left, c.right);
    }

    /** The branch has two children: it takes over its successor's value, which is then
        removed from the right subtree by way of a pointer to the successor's own node. */
    method ReplaceBySuccessor(node: Node<T>, ghost t: Shape<T>) returns (removed: bool)
      requires Linked(node, t) && AvlTree.Distinct(t) && AvlTree.Avl(t, rank)
      requires t.Branch? && t.left.Branch? && t.right.Branch?
      modifies AvlTree.Nodes(t)
      ensures removed
      ensures Linked(node, AvlTree.Join(t.node, t.left, AvlTree.MinValue(t.right),
                                        AvlTree.Remove(t.right, rank(AvlTree.MinValue(t.right)), rank)))
      ensures Dead(AvlTree.Freed(t.right, rank(AvlTree.MinValue(t.right)), rank))
      decreases t, 0
    {
      Open(node, t);
      AvlTree.Unfold(t);
      NodesAllocated(t);
      NodesAllocated(t.left);
      ghost var m := AvlTree.MinValue(t.right);
      AvlTree.RemoveNodes(t.right, rank(m), rank);
      var temp := MinValueNode(node.right, t.right);
      node.data := temp.data;
      var r;
      r, removed := RemoveSuccessor(node.right, temp, t.right);
      AttachRight(node, r, t.left, AvlTree.Remove(t.right, rank(m), rank), AvlTree.Freed(t.right, rank(m), rank));
    }

    /** The recursive call on the right subtree, whose key lies in that subtree. */
    method RemoveSuccessor(node: Node?<T>, temp: Node<T>, ghost t: Shape<T>) returns (r: Node?<T>, removed: bool)
      requires Linked(node, t) && AvlTree.Distinct(t) && AvlTree.Avl(t, rank) && t.Branch?
      requires temp in AvlTree.Nodes(t) && temp.live && temp.data == AvlTree.MinValue(t)
      modifies AvlTree.Nodes(t)
      ensures removed
      ensures Linked(r, AvlTree.Remove(t, rank(AvlTree.MinValue(t)), rank))
      ensures Dead(AvlTree.Freed(t, rank(AvlTree.MinValue(t)), rank))
      decreases t, 2
    {
      AvlTree.MinIsLeast(t, rank);
      r, removed := RemoveRecursive(node, temp, t);
    }

    /** `key` is read only while it is live, even where it points into the tree. */
    method RemoveRecursive(node: Node?<T>, key: Node<T>, ghost t: Shape<T>) returns (r: Node?<T>, removed: bool)
      requires Linked(node, t) && AvlTree.Distinct(t) && AvlTree.Avl(t, rank) && key.live
      modifies AvlTree.Nodes(t)
      ensures removed <==> AvlTree.Member(t, rank, rank(old(key.data)))
      ensures Linked(r, AvlTree.Remove(t, rank(old(key.data)), rank))
      ensures Dead(AvlTree.Freed(t, rank(old(key.data)), rank))
      decreases t, 1
    {
      if node == null {
        return null, false;
      }
      Open(node, t);
      AvlTree.Unfold(t);
      NodesAllocated(t);
      ghost var k := rank(key.data);
      AvlTree.MemberSide(t, rank, k);
      AvlTree.RemoveCorrect(t, k, rank);
      var cmp := Compare(key, node);
      ghost var j: Shape<T>;
      if cmp < 0 {
        removed := RemoveLeft(node, key, t);
        j := AvlTree.Join(t.node, AvlTree.Remove(t.left, k, rank), t.value, t.right);
        AvlTree.RemoveStepLeft(t, k, rank);
      } else if cmp > 0 {
        removed := RemoveRight(node, key, t);
        j := AvlTree.Join(t.node, t.left, t.value, AvlTree.Remove(t.right, k, rank));
        AvlTree.RemoveStepRight(t, k, rank);
      } else {
        removed := true;
        if node.left == null || node.right == null {
          var temp := if node.left != null then node.left else node.right;
          if temp == null {
            FreeNode(node);
            return null, true;
          }
          ghost var c := if t.left.Branch? then t.left else t.right;
          AbsorbChild(node, temp, t, c);
          j := AvlTree.Join(t.node, c.left, c.value, c.right);
          AvlTree.RemoveStepOnlyChild(t, c);
        } else {
          removed := ReplaceBySuccessor(node, t);
          j := AvlTree.Join(t.node, t.left, AvlTree.MinValue(t.right),
                            AvlTree.Remove(t.right, rank(AvlTree.MinValue(t.right)), rank));
          AvlTree.RemoveStepSuccessor(t, rank);
        }
      }
      r := RemoveRebalance(node, j);
    }

    /** Exactly the node of the removed value's branch, or the one it took over, is freed. */
    method Remove(key: Node<T>) returns (removed: bool)
      requires Valid() && key.live
      modifies this, AvlTree.Nodes(tree)
      ensures Valid()
      ensures removed <==> old(Contains(key.data))
      ensures RemoveOutcome(old(tree), tree, rank(old(key.data)), removed, rank)
      ensures Dead(AvlTree.Nodes(old(tree)) - AvlTree.Nodes(tree))
    {
      if root == null {
        return false;
      }
      removed := RemoveAtRoot(key);
    }

    method RemoveAtRoot(key: Node<T>) returns (removed: bool)
      requires Valid() && key.live
      modifies this, AvlTree.Nodes(tree)
      ensures Valid()
      ensures removed <==> old(Contains(key.data))
      ensures RemoveOutcome(old(tree), tree, rank(old(key.data)), removed, rank)
      ensures Dead(AvlTree.Nodes(old(tree)) - AvlTree.Nodes(tree))
    {
      NodesAllocated(tree);
      var r;
      ghost var u;
      r, removed, u := RemoveFromShape(root, key, tree);
      Install(r, u, if removed then size - 1 else size, AvlTree.Nodes(tree) - AvlTree.Nodes(u));
    }

    /** The outermost recursive call, with what it does to the shape as a whole. */
    method RemoveFromShape(node: Node?<T>, key: Node<T>, ghost t: Shape<T>)
      returns (r: Node?<T>, removed: bool, ghost u: Shape<T>)
      requires Linked(node, t) && AvlTree.Distinct(t) && AvlTree.Avl(t, rank) && key.live
      modifies AvlTree.Nodes(t)
      ensures Linked(r, u)
      ensures removed <==> AvlTree.Member(t, rank, rank(old(key.data)))
      ensures RemoveOutcome(t, u, rank(old(key.data)), removed, rank)
      ensures Dead(AvlTree.Nodes(t) - AvlTree.Nodes(u))
    {
      ghost var k := rank(key.data);
      RemoveResult(t, k, rank);
      r, removed := RemoveRecursive(node, key, t);
      u := AvlTree.Remove(t, k, rank);
    }

    /** The search finds exactly the members, in at most as many steps as the tree is deep. */
    method Find(key: Node<T>) returns (hit: Node?<T>, ghost steps: nat)
      requires Valid() && key.live
      ensures hit != null <==> Contains(key.data)
      ensures hit != null ==> hit in AvlTree.Nodes(tree) && hit.live && hit.data in Elements() && rank(hit.data) == rank(key.data)
      ensures steps <= AvlTree.Depth(tree)
    {
      var curr := root;
      ghost var t := tree;
      steps := 0;
      while curr != null
        invariant Linked(curr, t) && AvlTree.Ordered(t, rank)
        invariant AvlTree.Nodes(t) <= AvlTree.Nodes(tree) && AvlTree.Values(t) <= Elements()
        invariant AvlTree.Member(t, rank, rank(key.data)) <==> Contains(key.data)
        invariant steps + AvlTree.Depth(t) <= AvlTree.Depth(tree)
        decreases t
      {
        Open(curr, t);
        AvlTree.Unfold(t);
        AvlTree.MemberSide(t, rank, rank(key.data));
        steps := steps + 1;
        var cmp := Compare(key, curr);
        if cmp == 0 {
          return curr, steps;
        } else if cmp < 0 {
          curr, t := curr.left, t.left;
        } else {
          curr, t := curr.right, t.right;
        }
      }
      hit := null;
    }

    /** The visitor is called on the elements from left to right; here it records them. */
    method InorderRecursive(node: Node?<T>, visited: seq<T>, ghost t: Shape<T>) returns (now: seq<T>)
      requires Linked(node, t)
      ensures now == visited + AvlTree.InOrder(t)
      decreases t
    {
      now := visited;
      if node != null {
        Open(node, t);
        NodesAllocated(t.left);
        NodesAllocated(t.right);
        now := InorderRecursive(node.left, now, t.left);
        now := now + [node.data];
        now := InorderRecursive(node.right, now, t.right);
      }
    }

    method TraverseInorder() returns (visited: seq<T>)
      requires Valid()
      ensures AvlTree.Increasing(visited, rank)
      ensures forall x :: x in visited <==> x in Elements()
      ensures |visited| == size
    {
      visited := InorderRecursive(root, [], tree);
      AvlTree.InOrderSorted(tree, rank);
      forall x
        ensures x in visited <==> x in Elements()
      {
        AvlTree.InOrderLists(tree, x);
      }
      InOrderLength(tree);
    }

    method DestroySubtree(node: Node?<T>, ghost t: Shape<T>)
      requires Linked(node, t) && AvlTree.Distinct(t)
      modifies AvlTree.Nodes(t)`live
      ensures Dead(AvlTree.Nodes(t))
      decreases t
    {
      if node != null {
        Open(node, t);
        AvlTree.Unfold(t);
        NodesAllocated(t.left);
        NodesAllocated(t.right);
        DestroySubtree(node.left, t.left);
        DestroySubtree(node.right, t.right);
        FreeNode(node);
      }
    }

    /** Every node of the set is freed, each after its subtrees. */
    method Clear()
      requires Valid()
      modifies this, AvlTree.Nodes(tree)`live
      ensures Valid() && Elements() == {} && size == 0 && tree == AvlTree.Leaf
      ensures Dead(old(AvlTree.Nodes(tree)))
    {
      NodesAllocated(tree);
      DestroySubtree(root, tree);
      root, size, tree := null, 0, AvlTree.Leaf;
    }
  }

  // ----- Whole runs

  datatype Op<T> = OpInsert(key: T) | OpRemove(key: T) | OpFind(key: T) | OpClear

  /** What a plain set does with one call; keys are the same if they have the same rank. */
  ghost function SetAfter<T>(s: set<T>, op: Op<T>, rank: T -> int): set<T> {
    match op
    case OpInsert(v) => if HasRank(s, rank(v), rank) then s else s + {v}
    case OpRemove(v) => AvlTree.Without(s, rank(v), rank)
    case OpFind(_) => s
    case OpClear => {}
  }

  ghost predicate HasRank<T>(s: set<T>, k: int, rank: T -> int) {
    exists x :: x in s && rank(x) == k
  }

  ghost function SetAnswer<T>(s: set<T>, op: Op<T>, rank: T -> int): bool {
    match op
    case OpInsert(v) => !HasRank(s, rank(v), rank)
    case OpRemove(v) => HasRank(s, rank(v), rank)
    case OpFind(v) => HasRank(s, rank(v), rank)
    case OpClear => true
  }

  ghost function SetAnswers<T>(s: set<T>, ops: seq<Op<T>>, rank: T -> int): seq<bool>
    decreases |ops|
  {
    if ops == [] then [] else [SetAnswer(s, ops[0], rank)] + SetAnswers(SetAfter(s, ops[0], rank), ops[1..], rank)
  }

  /** Insertion, against the plain set. */
  method InsertAs<T>(s: OrderedSet<T>, key: Node<T>) returns (answer: bool)
    requires s.Valid() && key.live
    modifies s, AvlTree.Nodes(s.tree)
    ensures s.Valid() && s.Elements() == SetAfter(old(s.Elements()), OpInsert(old(key.data)), s.rank)
    ensures answer == SetAnswer(old(s.Elements()), OpInsert(old(key.data)), s.rank)
    ensures fresh(AvlTree.Nodes(s.tree) - old(AvlTree.Nodes(s.tree)))
  {
    answer := s.Insert(key, true);
  }

  method RemoveAs<T>(s: OrderedSet<T>, key: Node<T>) returns (answer: bool)
    requires s.Valid() && key.live
    modifies s, AvlTree.Nodes(s.tree)
    ensures s.Valid() && s.Elements() == SetAfter(old(s.Elements()), OpRemove(old(key.data)), s.rank)
    ensures answer == SetAnswer(old(s.Elements()), OpRemove(old(key.data)), s.rank)
    ensures AvlTree.Nodes(s.tree) <= old(AvlTree.Nodes(s.tree))
  {
    ghost var tree, k := s.tree, s.rank(key.data);
    answer := s.Remove(key);
  }

  method FindAs<T>(s: OrderedSet<T>, key: Node<T>) returns (answer: bool)
    requires s.Valid() && key.live
    ensures answer == SetAnswer(s.Elements(), OpFind(key.data), s.rank)
  {
    var hit;
    ghost var steps;
    hit, steps := s.Find(key);
    answer := hit != null;
  }

  method PerformInsert<T>(s: OrderedSet<T>, v: T) returns (answer: bool)
    requires s.Valid()
    modifies s, AvlTree.Nodes(s.tree)
    ensures s.Valid() && s.Elements() == SetAfter(old(s.Elements()), OpInsert(v), s.rank)
    ensures answer == SetAnswer(old(s.Elements()), OpInsert(v), s.rank)
    ensures forall n :: n in AvlTree.Nodes(s.tree) ==> n in old(AvlTree.Nodes(s.tree)) || fresh(n)
  {
    NodesAllocated(s.tree);
    ghost var nodes := AvlTree.Nodes(s.tree);
    var key := new Node(v);
    label before:
    answer := InsertAs(s, key);
    forall n | n in AvlTree.Nodes(s.tree) && n !in nodes
      ensures fresh(n)
    {
      assert n in AvlTree.Nodes(s.tree) - old@before(AvlTree.Nodes(s.tree));
      assert !old@before(allocated(n));
    }
  }

  method PerformRemove<T>(s: OrderedSet<T>, v: T) returns (answer: bool)
    requires s.Valid()
    modifies s, AvlTree.Nodes(s.tree)
    ensures s.Valid() && s.Elements() == SetAfter(old(s.Elements()), OpRemove(v), s.rank)
    ensures answer == SetAnswer(old(s.Elements()), OpRemove(v), s.rank)
    ensures AvlTree.Nodes(s.tree) <= old(AvlTree.Nodes(s.tree))
  {
    NodesAllocated(s.tree);
    var key := new Node(v);
    answer := RemoveAs(s, key);
  }

  method PerformFind<T>(s: OrderedSet<T>, v: T) returns (answer: bool)
    requires s.Valid()
    ensures s.Valid() && s.tree == old(s.tree) && answer == SetAnswer(s.Elements(), OpFind(v), s.rank)
  {
    NodesAllocated(s.tree);
    var key := new Node(v);
    answer := FindAs(s, key);
  }

  /** One call, with the key in a place of its own, answered as the set would. */
  method Perform<T>(s: OrderedSet<T>, op: Op<T>) returns (answer: bool)
    requires s.Valid()
    modifies s, AvlTree.Nodes(s.tree)
    ensures s.Valid() && s.Elements() == SetAfter(old(s.Elements()), op, s.rank)
    ensures answer == SetAnswer(old(s.Elements()), op, s.rank)
    ensures forall n :: n in AvlTree.Nodes(s.tree) ==> n in old(AvlTree.Nodes(s.tree)) || fresh(n)
  {
    match op {
      case OpInsert(v) => answer := PerformInsert(s, v);
      case OpRemove(v) =>
        answer := PerformRemove(s, v);
      case OpFind(v) =>
        answer := PerformFind(s, v);
      case OpClear =>
        s.Clear();
        answer := true;
    }
  }

  /** Over every run, while allocation succeeds, the tree answers as a set. */
  method Replay<T>(s: OrderedSet<T>, ops: seq<Op<T>>) returns (answers: seq<bool>)
    requires s.Valid()
    modifies s, AvlTree.Nodes(s.tree)
    ensures s.Valid() && answers == SetAnswers(old(s.Elements()), ops, s.rank)
    decreases |ops|
  {
    if ops == [] {
      return [];
    }
    var answer := Perform(s, ops[0]);
    var rest := Replay(s, ops[1..]);
    answers := [answer] + rest;
  }

  // ----- The outcome of one call, on shapes

  lemma {:induction false} InsertResult<T>(t: Shape<T>, v: T, n: Node<T>, rank: T -> int)
    requires AvlTree.Avl(t, rank) && AvlTree.Distinct(t)
    requires AvlTree.Member(t, rank, rank(v)) || n !in AvlTree.Nodes(t)
    ensures var u := AvlTree.Insert(t, v, n, rank);
            && AvlTree.Avl(u, rank) && AvlTree.Distinct(u)
            && if AvlTree.Member(t, rank, rank(v)) then u == t else
                 && AvlTree.Values(u) == AvlTree.Values(t) + {v}
                 && AvlTree.Nodes(u) == AvlTree.Nodes(t) + {n}
                 && AvlTree.Size(u) == AvlTree.Size(t) + 1
  {
    var u := AvlTree.Insert(t, v, n, rank);
    AvlTree.InsertBalanced(t, v, n, rank);
    if AvlTree.Member(t, rank, rank(v)) {
      AvlTree.InsertPresent(t, v, n, rank);
    } else {
      AvlTree.InsertAbsent(t, v, n, rank);
      AvlTree.NodeCount(t);
      AvlTree.NodeCount(u);
    }
  }

  /** What one removal does to the shape. */
  ghost predicate RemoveOutcome<T>(t: Shape<T>, u: Shape<T>, k: int, removed: bool, rank: T -> int) {
    && AvlTree.Avl(u, rank) && AvlTree.Distinct(u)
    && AvlTree.Values(u) == AvlTree.Without(AvlTree.Values(t), k, rank)
    && AvlTree.Nodes(u) <= AvlTree.Nodes(t)
    && |AvlTree.Nodes(t) - AvlTree.Nodes(u)| == (if removed then 1 else 0)
    && AvlTree.Size(u) == AvlTree.Size(t) - if removed then 1 else 0
  }

  lemma {:induction false} RemoveResult<T>(t: Shape<T>, k: int, rank: T -> int)
    requires AvlTree.Avl(t, rank) && AvlTree.Distinct(t)
    ensures RemoveOutcome(t, AvlTree.Remove(t, k, rank), k, AvlTree.Member(t, rank, k), rank)
    ensures AvlTree.Nodes(t) - AvlTree.Nodes(AvlTree.Remove(t, k, rank)) == AvlTree.Freed(t, k, rank)
  {
    AvlTree.RemoveBalanced(t, k, rank);
    AvlTree.RemoveCorrect(t, k, rank);
    RemoveCount(t, k, rank);
  }

  lemma {:induction false} RemoveCount<T>(t: Shape<T>, k: int, rank: T -> int)
    requires AvlTree.Avl(t, rank) && AvlTree.Distinct(t)
    ensures var u := AvlTree.Remove(t, k, rank);
            && AvlTree.Nodes(t) - AvlTree.Nodes(u) == AvlTree.Freed(t, k, rank)
            && |AvlTree.Freed(t, k, rank)| == (if AvlTree.Member(t, rank, k) then 1 else 0)
            && AvlTree.Size(u) == AvlTree.Size(t) - |AvlTree.Freed(t, k, rank)|
  {
    var u := AvlTree.Remove(t, k, rank);
    AvlTree.RemoveNodes(t, k, rank);
    AvlTree.FreedOne(t, k, rank);
    AvlTree.NodeCount(t);
    AvlTree.NodeCount(u);
    Complement(AvlTree.Nodes(t), AvlTree.Freed(t, k, rank));
  }

  lemma {:induction false} Complement<X>(s: set<X>, gone: set<X>)
    requires gone <= s
    ensures s - (s - gone) == gone && |s - gone| == |s| - |gone|
  {
    assert s == (s - gone) + gone;
  }

  lemma {:induction false} InOrderLength<T>(t: Shape<T>)
    ensures |AvlTree.InOrder(t)| == AvlTree.Size(t)
  {
    if t.Branch? {
      InOrderLength(t.left);
      InOrderLength(t.right);
    }
  }
}
