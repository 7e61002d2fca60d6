/** The ordered set's trees as values. A branch names the node that stores it, so that a
    tree also says which nodes it occupies. */
module AvlTree {
  import opened Bits
  import opened Common

  datatype Tree<N, T> = Leaf | Branch(node: N, left: Tree<N, T>, value: T, height: int, right: Tree<N, T>)

  // ----- What a tree holds

  ghost function Nodes<N, T>(t: Tree<N, T>): set<N> {
    match t
    case Leaf => {}
    case Branch(n, l, _, _, r) => {n} + Nodes(l) + Nodes(r)
  }

  /** The tree and all its subtrees, leaves aside. */
  ghost function Branches<N, T>(t: Tree<N, T>): (bs: set<Tree<N, T>>)
    ensures forall b :: b in bs ==> b.Branch? && b.node in Nodes(t)
  {
    if t.Leaf? then {} else {t} + Branches(t.left) + Branches(t.right)
  }

  /** No node stores two branches. */
  ghost predicate Distinct<N, T>(t: Tree<N, T>) {
    match t
    case Leaf => true
    case Branch(n, l, _, _, r) =>
      n !in Nodes(l) && n !in Nodes(r) && Nodes(l) !! Nodes(r) && Distinct(l) && Distinct(r)
  }

  ghost function Values<N, T>(t: Tree<N, T>): set<T> {
    match t
    case Leaf => {}
    case Branch(_, l, v, _, r) => {v} + Values(l) + Values(r)
  }

  function Size<N, T>(t: Tree<N, T>): nat {
    match t
    case Leaf => 0
    case Branch(_, l, _, _, r) => 1 + Size(l) + Size(r)
  }

  ghost function InOrder<N, T>(t: Tree<N, T>): seq<T> {
    match t
    case Leaf => []
    case Branch(_, l, v, _, r) => InOrder(l) + [v] + InOrder(r)
  }

  // ----- The kept invariant

  function Depth<N, T>(t: Tree<N, T>): nat {
    match t
    case Leaf => 0
    case Branch(_, l, _, _, r) => 1 + Max(Depth(l), Depth(r))
  }

  ghost predicate Below<N, T>(t: Tree<N, T>, rank: T -> int, bound: int) {
    forall x :: x in Values(t) ==> rank(x) < bound
  }

  ghost predicate Above<N, T>(t: Tree<N, T>, rank: T -> int, bound: int) {
    forall x :: x in Values(t) ==> bound < rank(x)
  }

  /** A binary search tree with strictly increasing ranks. */
  ghost predicate Ordered<N, T>(t: Tree<N, T>, rank: T -> int) {
    match t
    case Leaf => true
    case Branch(_, l, v, _, r) =>
      Below(l, rank, rank(v)) && Above(r, rank, rank(v)) && Ordered(l, rank) && Ordered(r, rank)
  }

  /** Stored heights are exact and every balance is -1, 0 or 1. */
  ghost predicate Balanced<N, T>(t: Tree<N, T>) {
    match t
    case Leaf => true
    case Branch(_, l, _, h, r) =>
      h == Depth(t) && -1 <= Depth(l) - Depth(r) <= 1 && Balanced(l) && Balanced(r)
  }

  ghost predicate Avl<N, T>(t: Tree<N, T>, rank: T -> int) {
    Ordered(t, rank) && Balanced(t)
  }

  /** Some element compares equal to rank `k`. */
  ghost predicate Member<N, T>(t: Tree<N, T>, rank: T -> int, k: int) {
    exists x :: x in Values(t) && rank(x) == k
  }

  // ----- The algorithms

  function Height<N, T>(t: Tree<N, T>): int {
    if t.Leaf? then 0 else t.height
  }

  function Balance<N, T>(t: Tree<N, T>): int {
    if t.Leaf? then 0 else Height(t.left) - Height(t.right)
  }

  /** The branch with its height recomputed from its children's. */
  function Join<N, T>(n: N, l: Tree<N, T>, v: T, r: Tree<N, T>): Tree<N, T> {
    Branch(n, l, v, 1 + Max(Height(l), Height(r)), r)
  }

  function RotateRight<N, T>(t: Tree<N, T>): Tree<N, T>
    requires t.Branch? && t.left.Branch?
  {
    var x := t.left;
    Join(x.node, x.left, x.value, Join(t.node, x.right, t.value, t.right))
  }

  function RotateLeft<N, T>(t: Tree<N, T>): Tree<N, T>
    requires t.Branch? && t.right.Branch?
  {
    var y := t.right;
    Join(y.node, Join(t.node, t.left, t.value, y.left), y.value, y.right)
  }

  /** Insertion picks the rotation by comparing the new value with the child's. */
  function InsertFix<N, T>(t: Tree<N, T>, v: T, rank: T -> int): Tree<N, T>
    requires t.Branch?
  {
    var b := Balance(t);
    if b > 1 && t.left.Branch? && rank(v) < rank(t.left.value) then RotateRight(t)
    else if b < -1 && t.right.Branch? && rank(v) > rank(t.right.value) then RotateLeft(t)
    else if b > 1 && t.left.Branch? && t.left.right.Branch? && rank(v) > rank(t.left.value) then
      RotateRight(t.(left := RotateLeft(t.left)))
    else if b < -1 && t.right.Branch? && t.right.left.Branch? && rank(v) < rank(t.right.value) then
      RotateLeft(t.(right := RotateRight(t.right)))
    else t
  }

  /** Inserting `v`, stored in node `n` if it is new. */
  function Insert<N, T>(t: Tree<N, T>, v: T, n: N, rank: T -> int): Tree<N, T> {
    match t
    case Leaf => Branch(n, Leaf, v, 1, Leaf)
    case Branch(m, l, x, _, r) =>
      if rank(v) < rank(x) then InsertFix(Join(m, Insert(l, v, n, rank), x, r), v, rank)
      else if rank(v) > rank(x) then InsertFix(Join(m, l, x, Insert(r, v, n, rank)), v, rank)
      else t
  }

  /** Removal picks the rotation by the child's balance. */
  function RemoveFix<N, T>(t: Tree<N, T>): Tree<N, T>
    requires t.Branch?
  {
    var b := Balance(t);
    if b > 1 && t.left.Branch? && Balance(t.left) >= 0 then RotateRight(t)
    else if b > 1 && t.left.Branch? && t.left.right.Branch? && Balance(t.left) < 0 then
      RotateRight(t.(left := RotateLeft(t.left)))
    else if b < -1 && t.right.Branch? && Balance(t.right) <= 0 then RotateLeft(t)
    else if b < -1 && t.right.Branch? && t.right.left.Branch? && Balance(t.right) > 0 then
      RotateLeft(t.(right := RotateRight(t.right)))
    else t
  }

  function MinValue<N, T>(t: Tree<N, T>): T
    requires t.Branch?
  {
    if t.left.Leaf? then t.value else MinValue(t.left)
  }

  function Remove<N, T>(t: Tree<N, T>, k: int, rank: T -> int): Tree<N, T> {
    match t
    case Leaf => Leaf
    case Branch(m, l, x, _, r) =>
      if k < rank(x) then RemoveFix(Join(m, Remove(l, k, rank), x, r))
      else if k > rank(x) then RemoveFix(Join(m, l, x, Remove(r, k, rank)))
      else if l.Leaf? && r.Leaf? then Leaf
      else if r.Leaf? then RemoveFix(Join(m, l.left, l.value, l.right))
      else if l.Leaf? then RemoveFix(Join(m, r.left, r.value, r.right))
      else RemoveFix(Join(m, l, MinValue(r), Remove(r, rank(MinValue(r)), rank)))
  }

  // ----- Heights

  lemma {:induction false} StoredHeight<N, T>(t: Tree<N, T>)
    requires Balanced(t)
    ensures Height(t) == Depth(t)
  {
  }

  /** A branch over two balanced subtrees whose depths differ by at most one. */
  lemma {:induction false} JoinBalanced<N, T>(n: N, l: Tree<N, T>, v: T, r: Tree<N, T>)
    requires Balanced(l) && Balanced(r) && -1 <= Depth(l) - Depth(r) <= 1
    ensures Balanced(Join(n, l, v, r))
    ensures Depth(Join(n, l, v, r)) == 1 + Max(Depth(l), Depth(r))
  {
    StoredHeight(l);
    StoredHeight(r);
  }

  /** The left child is two deeper and leans left or not at all: one rotation. */
  lemma {:induction false} SingleRight<N, T>(t: Tree<N, T>)
    requires t.Branch? && Balanced(t.left) && Balanced(t.right) && t.left.Branch?
    requires Depth(t.left) == Depth(t.right) + 2 && Depth(t.left.left) >= Depth(t.left.right)
    ensures Balanced(RotateRight(t))
    ensures Depth(RotateRight(t)) == Depth(t.left) + (if Depth(t.left.left) > Depth(t.left.right) then 0 else 1)
  {
    var x := t.left;
    JoinBalanced(t.node, x.right, t.value, t.right);
    JoinBalanced(x.node, x.left, x.value, Join(t.node, x.right, t.value, t.right));
  }

  /** The left child is two deeper and leans right: two rotations. */
  lemma {:induction false} DoubleRight<N, T>(t: Tree<N, T>)
    requires t.Branch? && Balanced(t.left) && Balanced(t.right) && t.left.Branch?
    requires Depth(t.left) == Depth(t.right) + 2 && Depth(t.left.left) < Depth(t.left.right)
    ensures t.left.right.Branch?
    ensures var u := RotateRight(t.(left := RotateLeft(t.left))); Balanced(u) && Depth(u) == Depth(t.left)
  {
    var x, z := t.left, t.left.right;
    JoinBalanced(x.node, x.left, x.value, z.left);
    JoinBalanced(t.node, z.right, t.value, t.right);
    JoinBalanced(z.node, Join(x.node, x.left, x.value, z.left), z.value, Join(t.node, z.right, t.value, t.right));
  }

  lemma {:induction false} DoubleLeft<N, T>(t: Tree<N, T>)
    requires t.Branch? && Balanced(t.left) && Balanced(t.right) && t.right.Branch?
    requires Depth(t.right) == Depth(t.left) + 2 && Depth(t.right.right) < Depth(t.right.left)
    ensures t.right.left.Branch?
    ensures var u := RotateLeft(t.(right := RotateRight(t.right))); Balanced(u) && Depth(u) == Depth(t.right)
  {
    var y, z := t.right, t.right.left;
    JoinBalanced(y.node, z.right, y.value, y.right);
    JoinBalanced(t.node, t.left, t.value, z.left);
    JoinBalanced(z.node, Join(t.node, t.left, t.value, z.left), z.value, Join(y.node, z.right, y.value, y.right));
  }

  // ----- Rotations permute neither order nor content

  /** Same nodes, values and in-order sequence; ordered and distinct alike. */
  ghost predicate Rearranged<N, T>(t: Tree<N, T>, u: Tree<N, T>, rank: T -> int) {
    && Nodes(u) == Nodes(t)
    && Values(u) == Values(t)
    && (Distinct(t) ==> Distinct(u))
    && (Ordered(t, rank) ==> Ordered(u, rank))
  }

  lemma {:induction false} RotateRightOrdered<N, T>(t: Tree<N, T>, rank: T -> int)
    requires t.Branch? && t.left.Branch? && Ordered(t, rank)
    ensures Ordered(RotateRight(t), rank)
  {
    var x := t.left;
    var y := Join(t.node, x.right, t.value, t.right);
    assert Values(x) == {x.value} + Values(x.left) + Values(x.right);
    assert Below(x.right, rank, rank(t.value));
    assert Ordered(y, rank);
    assert Values(y) == {t.value} + Values(x.right) + Values(t.right);
    assert rank(x.value) < rank(t.value);
    assert Above(y, rank, rank(x.value));
  }

  lemma {:induction false} RotateLeftOrdered<N, T>(t: Tree<N, T>, rank: T -> int)
    requires t.Branch? && t.right.Branch? && Ordered(t, rank)
    ensures Ordered(RotateLeft(t), rank)
  {
    var y := t.right;
    var x := Join(t.node, t.left, t.value, y.left);
    assert Values(y) == {y.value} + Values(y.left) + Values(y.right);
    assert Above(y.left, rank, rank(t.value));
    assert Ordered(x, rank);
    assert Values(x) == {t.value} + Values(t.left) + Values(y.left);
    assert rank(t.value) < rank(y.value);
    assert Below(x, rank, rank(y.value));
  }

  /** The recursive definitions unfolded once. */
  lemma {:induction false} Unfold<N, T>(t: Tree<N, T>)
    requires t.Branch?
    ensures Nodes(t) == {t.node} + Nodes(t.left) + Nodes(t.right)
    ensures Values(t) == {t.value} + Values(t.left) + Values(t.right)
  {
  }

  /** The subtrees below a left child occupy nodes of their own. */
  lemma {:induction false} LeftPartsDisjoint<N, T>(t: Tree<N, T>)
    requires t.Branch? && t.left.Branch? && Distinct(t)
    ensures t.node != t.left.node
    ensures {t.node, t.left.node} !! Nodes(t.left.left) !! Nodes(t.left.right) !! Nodes(t.right)
    ensures Distinct(t.left) && Distinct(t.right)
  {
    Unfold(t);
    Unfold(t.left);
    assert Distinct(t.left);
  }

  lemma {:induction false} RightPartsDisjoint<N, T>(t: Tree<N, T>)
    requires t.Branch? && t.right.Branch? && Distinct(t)
    ensures t.node != t.right.node
    ensures {t.node, t.right.node} !! Nodes(t.left) !! Nodes(t.right.left) !! Nodes(t.right.right)
    ensures Distinct(t.left) && Distinct(t.right)
  {
    Unfold(t);
    Unfold(t.right);
    assert Distinct(t.right);
  }

  lemma {:induction false} RotateRightContents<N, T>(t: Tree<N, T>)
    requires t.Branch? && t.left.Branch?
    ensures Nodes(RotateRight(t)) == Nodes(t) && Values(RotateRight(t)) == Values(t)
    ensures Distinct(t) ==> Distinct(RotateRight(t))
  {
    var x, y := t.left, RotateRight(t).right;
    Unfold(t);
    Unfold(x);
    Unfold(y);
    Unfold(RotateRight(t));
    if Distinct(t) {
      assert Distinct(x);
      assert Distinct(y);
    }
  }

  lemma {:induction false} RotateLeftContents<N, T>(t: Tree<N, T>)
    requires t.Branch? && t.right.Branch?
    ensures Nodes(RotateLeft(t)) == Nodes(t) && Values(RotateLeft(t)) == Values(t)
    ensures Distinct(t) ==> Distinct(RotateLeft(t))
  {
    var y, x := t.right, RotateLeft(t).left;
    Unfold(t);
    Unfold(y);
    Unfold(x);
    Unfold(RotateLeft(t));
    if Distinct(t) {
      assert Distinct(y);
      assert Distinct(x);
    }
  }

  lemma {:induction false} RotateRightRearranges<N, T>(t: Tree<N, T>, rank: T -> int)
    requires t.Branch? && t.left.Branch?
    ensures Rearranged(t, RotateRight(t), rank)
  {
    RotateRightContents(t);
    if Ordered(t, rank) { RotateRightOrdered(t, rank); }
  }

  lemma {:induction false} RotateLeftRearranges<N, T>(t: Tree<N, T>, rank: T -> int)
    requires t.Branch? && t.right.Branch?
    ensures Rearranged(t, RotateLeft(t), rank)
  {
    RotateLeftContents(t);
    if Ordered(t, rank) { RotateLeftOrdered(t, rank); }
  }

  lemma {:induction false} LeftReplacedDistinct<N, T>(t: Tree<N, T>, l: Tree<N, T>)
    requires t.Branch? && Distinct(t) && Distinct(l) && Nodes(l) == Nodes(t.left)
    ensures Distinct(t.(left := l)) && Nodes(t.(left := l)) == Nodes(t)
  {
    Unfold(t);
    Unfold(t.(left := l));
  }

  lemma {:induction false} RightReplacedDistinct<N, T>(t: Tree<N, T>, r: Tree<N, T>)
    requires t.Branch? && Distinct(t) && Distinct(r) && Nodes(r) == Nodes(t.right)
    ensures Distinct(t.(right := r)) && Nodes(t.(right := r)) == Nodes(t)
  {
    Unfold(t);
    Unfold(t.(right := r));
  }

  lemma {:induction false} DoubleRearranges<N, T>(t: Tree<N, T>, rank: T -> int)
    requires t.Branch?
    ensures t.left.Branch? && t.left.right.Branch? ==>
              Rearranged(t, RotateRight(t.(left := RotateLeft(t.left))), rank)
    ensures t.right.Branch? && t.right.left.Branch? ==>
              Rearranged(t, RotateLeft(t.(right := RotateRight(t.right))), rank)
  {
    if t.left.Branch? && t.left.right.Branch? {
      RotateLeftRearranges(t.left, rank);
      RotateRightRearranges(t.(left := RotateLeft(t.left)), rank);
    }
    if t.right.Branch? && t.right.left.Branch? {
      RotateRightRearranges(t.right, rank);
      RotateLeftRearranges(t.(right := RotateRight(t.right)), rank);
    }
  }

  lemma {:induction false} FixesRearrange<N, T>(t: Tree<N, T>, v: T, rank: T -> int)
    requires t.Branch?
    ensures Rearranged(t, InsertFix(t, v, rank), rank)
    ensures Rearranged(t, RemoveFix(t), rank)
  {
    if t.left.Branch? { RotateRightRearranges(t, rank); }
    if t.right.Branch? { RotateLeftRearranges(t, rank); }
    DoubleRearranges(t, rank);
  }

  // ----- Insertion

  /** If the tree got deeper, it did so on the side of the new value. */
  ghost predicate Grown<N, T>(t: Tree<N, T>, u: Tree<N, T>, v: T, rank: T -> int) {
    || Depth(u) == Depth(t)
    || (Depth(u) == Depth(t) + 1 && (t.Branch? ==>
         && u.Branch?
         && (rank(v) < rank(u.value) ==> Depth(u.left) == Depth(u.right) + 1)
         && (rank(v) > rank(u.value) ==> Depth(u.right) == Depth(u.left) + 1)
         && rank(v) != rank(u.value)))
  }

  /** Every child that the rotation picked by insertion dereferences exists. */
  ghost predicate InsertFixSafe<N, T>(t: Tree<N, T>, v: T, rank: T -> int) {
    && t.Branch?
    && (Balance(t) > 1 ==>
          && t.left.Branch? && rank(v) != rank(t.left.value)
          && (rank(v) > rank(t.left.value) ==> t.left.right.Branch?))
    && (Balance(t) < -1 ==>
          && t.right.Branch? && rank(v) != rank(t.right.value)
          && (rank(v) < rank(t.right.value) ==> t.right.left.Branch?))
  }

  lemma {:induction false} InsertedLeft<N, T>(t: Tree<N, T>, l: Tree<N, T>, v: T, rank: T -> int)
    requires t.Branch? && Balanced(t) && rank(v) < rank(t.value)
    requires Balanced(l) && Grown(t.left, l, v, rank)
    ensures InsertFixSafe(Join(t.node, l, t.value, t.right), v, rank)
    ensures var u := InsertFix(Join(t.node, l, t.value, t.right), v, rank); Balanced(u) && Grown(t, u, v, rank)
  {
    var j := Join(t.node, l, t.value, t.right);
    StoredHeight(l);
    StoredHeight(t.right);
    if Depth(l) <= Depth(t.right) + 1 {
      JoinBalanced(t.node, l, t.value, t.right);
    } else if rank(v) < rank(l.value) {
      SingleRight(j);
    } else {
      DoubleRight(j);
    }
  }

  lemma {:induction false} InsertedRight<N, T>(t: Tree<N, T>, r: Tree<N, T>, v: T, rank: T -> int)
    requires t.Branch? && Balanced(t) && rank(v) > rank(t.value)
    requires Balanced(r) && Grown(t.right, r, v, rank)
    ensures InsertFixSafe(Join(t.node, t.left, t.value, r), v, rank)
    ensures var u := InsertFix(Join(t.node, t.left, t.value, r), v, rank); Balanced(u) && Grown(t, u, v, rank)
  {
    var j := Join(t.node, t.left, t.value, r);
    StoredHeight(r);
    StoredHeight(t.left);
    if Depth(r) <= Depth(t.left) + 1 {
      JoinBalanced(t.node, t.left, t.value, r);
    } else if rank(v) > rank(r.value) {
    } else {
      DoubleLeft(j);
    }
  }

  lemma {:induction false} InsertBalanced<N, T>(t: Tree<N, T>, v: T, n: N, rank: T -> int)
    requires Balanced(t)
    ensures Balanced(Insert(t, v, n, rank)) && Grown(t, Insert(t, v, n, rank), v, rank)
  {
    if t.Branch? {
      if rank(v) < rank(t.value) {
        InsertBalanced(t.left, v, n, rank);
        InsertedLeft(t, Insert(t.left, v, n, rank), v, rank);
      } else if rank(v) > rank(t.value) {
        InsertBalanced(t.right, v, n, rank);
        InsertedRight(t, Insert(t.right, v, n, rank), v, rank);
      }
    }
  }

  /** Where the search for rank `k` has to go on. */
  lemma {:induction false} MemberSide<N, T>(t: Tree<N, T>, rank: T -> int, k: int)
    requires t.Branch? && Ordered(t, rank)
    ensures k < rank(t.value) ==> (Member(t, rank, k) <==> Member(t.left, rank, k))
    ensures k > rank(t.value) ==> (Member(t, rank, k) <==> Member(t.right, rank, k))
    ensures k == rank(t.value) ==> Member(t, rank, k)
  {
    Unfold(t);
    assert t.value in Values(t);
  }

  /** Inserting an element that is there already changes nothing at all. */
  lemma {:induction false} InsertPresent<N, T>(t: Tree<N, T>, v: T, n: N, rank: T -> int)
    requires Avl(t, rank) && Member(t, rank, rank(v))
    ensures Insert(t, v, n, rank) == t
  {
    MemberSide(t, rank, rank(v));
    StoredHeight(t.left);
    StoredHeight(t.right);
    if rank(v) < rank(t.value) {
      InsertPresent(t.left, v, n, rank);
    } else if rank(v) > rank(t.value) {
      InsertPresent(t.right, v, n, rank);
    }
  }

  /** `u` is `t` with the one more value `v`, stored in the one more node `n`. */
  ghost predicate Extended<N, T>(t: Tree<N, T>, u: Tree<N, T>, v: T, n: N, rank: T -> int) {
    && Nodes(u) == Nodes(t) + {n}
    && Values(u) == Values(t) + {v}
    && Distinct(u)
    && Ordered(u, rank)
  }

  lemma {:induction false} ExtendedLeft<N, T>(t: Tree<N, T>, l: Tree<N, T>, v: T, n: N, rank: T -> int)
    requires t.Branch? && Ordered(t, rank) && Distinct(t) && n !in Nodes(t) && rank(v) < rank(t.value)
    requires Extended(t.left, l, v, n, rank)
    ensures Extended(t, InsertFix(Join(t.node, l, t.value, t.right), v, rank), v, n, rank)
  {
    Unfold(t);
    var j := Join(t.node, l, t.value, t.right);
    assert Below(l, rank, rank(t.value));
    FixesRearrange(j, v, rank);
  }

  lemma {:induction false} ExtendedRight<N, T>(t: Tree<N, T>, r: Tree<N, T>, v: T, n: N, rank: T -> int)
    requires t.Branch? && Ordered(t, rank) && Distinct(t) && n !in Nodes(t) && rank(v) > rank(t.value)
    requires Extended(t.right, r, v, n, rank)
    ensures Extended(t, InsertFix(Join(t.node, t.left, t.value, r), v, rank), v, n, rank)
  {
    Unfold(t);
    var j := Join(t.node, t.left, t.value, r);
    assert Above(r, rank, rank(t.value));
    FixesRearrange(j, v, rank);
  }

  /** A new element is added in its new node, and nothing else changes. */
  lemma {:induction false} InsertAbsent<N, T>(t: Tree<N, T>, v: T, n: N, rank: T -> int)
    requires Ordered(t, rank) && Distinct(t) && n !in Nodes(t) && !Member(t, rank, rank(v))
    ensures Extended(t, Insert(t, v, n, rank), v, n, rank)
  {
    if t.Branch? {
      MemberSide(t, rank, rank(v));
      Unfold(t);
      if rank(v) < rank(t.value) {
        InsertAbsent(t.left, v, n, rank);
        ExtendedLeft(t, Insert(t.left, v, n, rank), v, n, rank);
      } else {
        InsertAbsent(t.right, v, n, rank);
        ExtendedRight(t, Insert(t.right, v, n, rank), v, n, rank);
      }
    }
  }

  /** One level of insertion to the left: the branch that is about to be rebalanced. */
  lemma {:induction false} InsertStepLeft<N, T>(t: Tree<N, T>, v: T, n: N, rank: T -> int)
    requires t.Branch? && Avl(t, rank) && Distinct(t) && rank(v) < rank(t.value)
    requires Member(t, rank, rank(v)) || n !in Nodes(t)
    ensures var l := Insert(t.left, v, n, rank);
            var j := Join(t.node, l, t.value, t.right);
            && Nodes(l) <= Nodes(t.left) + {n} && t.node !in Nodes(l)
            && Distinct(j) && InsertFixSafe(j, v, rank)
            && Nodes(j) <= Nodes(t) + {n}
            && (Member(t, rank, rank(v)) ==> Nodes(j) == Nodes(t))
  {
    var l := Insert(t.left, v, n, rank);
    MemberSide(t, rank, rank(v));
    Unfold(t);
    if Member(t, rank, rank(v)) {
      InsertPresent(t.left, v, n, rank);
    } else {
      InsertAbsent(t.left, v, n, rank);
    }
    InsertBalanced(t.left, v, n, rank);
    InsertedLeft(t, l, v, rank);
  }

  lemma {:induction false} InsertStepRight<N, T>(t: Tree<N, T>, v: T, n: N, rank: T -> int)
    requires t.Branch? && Avl(t, rank) && Distinct(t) && rank(v) > rank(t.value)
    requires Member(t, rank, rank(v)) || n !in Nodes(t)
    ensures var r := Insert(t.right, v, n, rank);
            var j := Join(t.node, t.left, t.value, r);
            && Nodes(r) <= Nodes(t.right) + {n} && t.node !in Nodes(r)
            && Distinct(j) && InsertFixSafe(j, v, rank)
            && Nodes(j) <= Nodes(t) + {n}
            && (Member(t, rank, rank(v)) ==> Nodes(j) == Nodes(t))
  {
    var r := Insert(t.right, v, n, rank);
    MemberSide(t, rank, rank(v));
    Unfold(t);
    if Member(t, rank, rank(v)) {
      InsertPresent(t.right, v, n, rank);
    } else {
      InsertAbsent(t.right, v, n, rank);
    }
    InsertBalanced(t.right, v, n, rank);
    InsertedRight(t, r, v, rank);
  }

  /** Insertion when the node may be missing: the code then goes on without it. */
  function InsertIf<N, T>(t: Tree<N, T>, v: T, n: N, rank: T -> int, ok: bool): Tree<N, T> {
    if ok then Insert(t, v, n, rank) else t
  }

  /** Without a new node a level is rebuilt as it was, and nothing is rotated. */
  lemma {:induction false} RebuiltSame<N, T>(t: Tree<N, T>, v: T, rank: T -> int)
    requires t.Branch? && Balanced(t) && rank(v) != rank(t.value)
    ensures Join(t.node, t.left, t.value, t.right) == t
    ensures InsertFixSafe(t, v, rank) && InsertFix(t, v, rank) == t
  {
    StoredHeight(t.left);
    StoredHeight(t.right);
  }

  lemma {:induction false} InsertIfLeft<N, T>(t: Tree<N, T>, v: T, n: N, rank: T -> int, ok: bool)
    requires t.Branch? && Avl(t, rank) && Distinct(t) && rank(v) < rank(t.value)
    requires ok ==> Member(t, rank, rank(v)) || n !in Nodes(t)
    ensures var l := InsertIf(t.left, v, n, rank, ok);
            var j := Join(t.node, l, t.value, t.right);
            && t.node !in Nodes(l) && Distinct(j) && InsertFixSafe(j, v, rank)
            && Nodes(j) <= Nodes(t) + {n}
            && (Member(t, rank, rank(v)) || !ok ==> Nodes(j) == Nodes(t))
            && InsertFix(j, v, rank) == InsertIf(t, v, n, rank, ok)
  {
    if ok {
      InsertStepLeft(t, v, n, rank);
    } else {
      RebuiltSame(t, v, rank);
      Unfold(t);
    }
  }

  lemma {:induction false} InsertIfRight<N, T>(t: Tree<N, T>, v: T, n: N, rank: T -> int, ok: bool)
    requires t.Branch? && Avl(t, rank) && Distinct(t) && rank(v) > rank(t.value)
    requires ok ==> Member(t, rank, rank(v)) || n !in Nodes(t)
    ensures var r := InsertIf(t.right, v, n, rank, ok);
            var j := Join(t.node, t.left, t.value, r);
            && t.node !in Nodes(r) && Distinct(j) && InsertFixSafe(j, v, rank)
            && Nodes(j) <= Nodes(t) + {n}
            && (Member(t, rank, rank(v)) || !ok ==> Nodes(j) == Nodes(t))
            && InsertFix(j, v, rank) == InsertIf(t, v, n, rank, ok)
  {
    if ok {
      InsertStepRight(t, v, n, rank);
    } else {
      RebuiltSame(t, v, rank);
      Unfold(t);
    }
  }

  // ----- Removal

  lemma {:induction false} MinIsLeast<N, T>(t: Tree<N, T>, rank: T -> int)
    requires t.Branch? && Ordered(t, rank)
    ensures MinValue(t) in Values(t)
    ensures forall x :: x in Values(t) && x != MinValue(t) ==> rank(MinValue(t)) < rank(x)
  {
    Unfold(t);
    if t.left.Branch? {
      MinIsLeast(t.left, rank);
    }
  }

  /** The depth stayed, or dropped by one. */
  ghost predicate Shrunk<N, T>(t: Tree<N, T>, u: Tree<N, T>) {
    Depth(t) - 1 <= Depth(u) <= Depth(t)
  }

  lemma {:induction false} LeftHeavyFixed<N, T>(n: N, l: Tree<N, T>, v: T, r: Tree<N, T>)
    requires Balanced(l) && Balanced(r) && Depth(l) == Depth(r) + 2
    ensures var u := RemoveFix(Join(n, l, v, r)); Balanced(u) && Depth(l) <= Depth(u) <= Depth(l) + 1
  {
    StoredHeight(l);
    StoredHeight(r);
    StoredHeight(l.left);
    StoredHeight(l.right);
    if Depth(l.left) >= Depth(l.right) {
      SingleRight(Join(n, l, v, r));
    } else {
      DoubleRight(Join(n, l, v, r));
    }
  }

  lemma {:induction false} RightHeavyFixed<N, T>(n: N, l: Tree<N, T>, v: T, r: Tree<N, T>)
    requires Balanced(l) && Balanced(r) && Depth(r) == Depth(l) + 2
    ensures var u := RemoveFix(Join(n, l, v, r)); Balanced(u) && Depth(r) <= Depth(u) <= Depth(r) + 1
  {
    StoredHeight(l);
    StoredHeight(r);
    StoredHeight(r.left);
    StoredHeight(r.right);
    if Depth(r.right) >= Depth(r.left) {
    } else {
      DoubleLeft(Join(n, l, v, r));
    }
  }

  lemma {:induction false} RemoveFixed<N, T>(n: N, l: Tree<N, T>, v: T, r: Tree<N, T>)
    requires Balanced(l) && Balanced(r) && -2 <= Depth(l) - Depth(r) <= 2
    ensures var u := RemoveFix(Join(n, l, v, r));
            && Balanced(u)
            && Max(Depth(l), Depth(r)) <= Depth(u) <= Max(Depth(l), Depth(r)) + 1
            && (-1 <= Depth(l) - Depth(r) <= 1 ==> Depth(u) == Max(Depth(l), Depth(r)) + 1)
  {
    if Depth(l) == Depth(r) + 2 {
      LeftHeavyFixed(n, l, v, r);
    } else if Depth(r) == Depth(l) + 2 {
      RightHeavyFixed(n, l, v, r);
    } else {
      StoredHeight(l);
      StoredHeight(r);
      JoinBalanced(n, l, v, r);
    }
  }

  /** One side, or the other, has been through a removal. */
  lemma {:induction false} SideShrunk<N, T>(t: Tree<N, T>, l: Tree<N, T>, v: T, r: Tree<N, T>)
    requires t.Branch? && Balanced(t) && Balanced(l) && Balanced(r)
    requires (l == t.left && Shrunk(t.right, r)) || (r == t.right && Shrunk(t.left, l))
    ensures var u := RemoveFix(Join(t.node, l, v, r)); Balanced(u) && Shrunk(t, u)
  {
    RemoveFixed(t.node, l, v, r);
  }

  lemma {:induction false} RemoveBalanced<N, T>(t: Tree<N, T>, k: int, rank: T -> int)
    requires Balanced(t)
    ensures Balanced(Remove(t, k, rank)) && Shrunk(t, Remove(t, k, rank))
  {
    if t.Branch? {
      var l, x, r := t.left, t.value, t.right;
      if k < rank(x) {
        RemoveBalanced(l, k, rank);
        SideShrunk(t, Remove(l, k, rank), x, r);
      } else if k > rank(x) {
        RemoveBalanced(r, k, rank);
        SideShrunk(t, l, x, Remove(r, k, rank));
      } else if l.Leaf? && r.Leaf? {
      } else if r.Leaf? {
      } else if l.Leaf? {
      } else {
        RemoveBalanced(r, rank(MinValue(r)), rank);
        SideShrunk(t, l, MinValue(r), Remove(r, rank(MinValue(r)), rank));
      }
    }
  }

  lemma {:induction false} RemoveAbsent<N, T>(t: Tree<N, T>, k: int, rank: T -> int)
    requires Avl(t, rank) && !Member(t, rank, k)
    ensures Remove(t, k, rank) == t
  {
    if t.Branch? {
      MemberSide(t, rank, k);
      StoredHeight(t.left);
      StoredHeight(t.right);
      if k < rank(t.value) {
        RemoveAbsent(t.left, k, rank);
      } else {
        RemoveAbsent(t.right, k, rank);
      }
    }
  }

  /** The node that removing rank `k` gives back, if any. A branch whose value has to go
      keeps its node whenever it has a child, and takes over another node's value. */
  ghost function Freed<N, T>(t: Tree<N, T>, k: int, rank: T -> int): set<N> {
    match t
    case Leaf => {}
    case Branch(m, l, x, _, r) =>
      if k < rank(x) then Freed(l, k, rank)
      else if k > rank(x) then Freed(r, k, rank)
      else if l.Leaf? && r.Leaf? then {m}
      else if r.Leaf? then {l.node}
      else if l.Leaf? then {r.node}
      else Freed(r, rank(MinValue(r)), rank)
  }

  ghost function Without<T>(s: set<T>, k: int, rank: T -> int): set<T> {
    set x | x in s && rank(x) != k
  }

  /** `u` is `t` without the value of rank `k` and without the nodes `gone`. */
  ghost predicate Reduced<N, T>(t: Tree<N, T>, u: Tree<N, T>, k: int, gone: set<N>, rank: T -> int) {
    && Values(u) == Without(Values(t), k, rank)
    && gone <= Nodes(t)
    && Nodes(u) == Nodes(t) - gone
    && Distinct(u)
    && Ordered(u, rank)
  }

  lemma {:induction false} ReducedLeft<N, T>(t: Tree<N, T>, l: Tree<N, T>, k: int, gone: set<N>, rank: T -> int)
    requires t.Branch? && Ordered(t, rank) && Distinct(t) && k < rank(t.value)
    requires Reduced(t.left, l, k, gone, rank)
    ensures Reduced(t, RemoveFix(Join(t.node, l, t.value, t.right)), k, gone, rank)
  {
    Unfold(t);
    var j := Join(t.node, l, t.value, t.right);
    assert Below(l, rank, rank(t.value));
    assert Values(j) == Without(Values(t), k, rank);
    assert Nodes(j) == Nodes(t) - gone;
    FixesRearrange(j, t.value, rank);
  }

  lemma {:induction false} ReducedRight<N, T>(t: Tree<N, T>, r: Tree<N, T>, k: int, gone: set<N>, rank: T -> int)
    requires t.Branch? && Ordered(t, rank) && Distinct(t) && k > rank(t.value)
    requires Reduced(t.right, r, k, gone, rank)
    ensures Reduced(t, RemoveFix(Join(t.node, t.left, t.value, r)), k, gone, rank)
  {
    Unfold(t);
    var j := Join(t.node, t.left, t.value, r);
    assert Above(r, rank, rank(t.value));
    assert Values(j) == Without(Values(t), k, rank);
    assert Nodes(j) == Nodes(t) - gone;
    FixesRearrange(j, t.value, rank);
  }

  /** The branch takes over the value of its only child, whose node is given back. */
  lemma {:induction false} ReducedOnlyChild<N, T>(t: Tree<N, T>, c: Tree<N, T>, rank: T -> int)
    requires t.Branch? && Ordered(t, rank) && Distinct(t) && c.Branch?
    requires (c == t.left && t.right.Leaf?) || (c == t.right && t.left.Leaf?)
    ensures Reduced(t, RemoveFix(Join(t.node, c.left, c.value, c.right)), rank(t.value), {c.node}, rank)
  {
    Unfold(t);
    Unfold(c);
    var j := Join(t.node, c.left, c.value, c.right);
    assert Ordered(c, rank) && Distinct(c);
    assert Values(j) == Values(c);
    assert Values(j) == Without(Values(t), rank(t.value), rank);
    assert Nodes(j) == Nodes(t) - {c.node};
    FixesRearrange(j, t.value, rank);
  }

  /** The branch takes over its successor's value, which is removed on its right. */
  lemma {:induction false} ReducedTwoChildren<N, T>(t: Tree<N, T>, r: Tree<N, T>, gone: set<N>, rank: T -> int)
    requires t.Branch? && Ordered(t, rank) && Distinct(t) && t.left.Branch? && t.right.Branch?
    requires Reduced(t.right, r, rank(MinValue(t.right)), gone, rank)
    ensures Reduced(t, RemoveFix(Join(t.node, t.left, MinValue(t.right), r)), rank(t.value), gone, rank)
  {
    var m := MinValue(t.right);
    MinIsLeast(t.right, rank);
    Unfold(t);
    var j := Join(t.node, t.left, m, r);
    assert Below(t.left, rank, rank(m));
    assert Above(r, rank, rank(m));
    assert Values(j) == Without(Values(t), rank(t.value), rank);
    assert Nodes(j) == Nodes(t) - gone;
    FixesRearrange(j, m, rank);
  }

  /** Removal takes out the value of rank `k`, and with it the freed node, and nothing else. */
  lemma {:induction false} RemoveCorrect<N, T>(t: Tree<N, T>, k: int, rank: T -> int)
    requires Ordered(t, rank) && Distinct(t)
    ensures Reduced(t, Remove(t, k, rank), k, Freed(t, k, rank), rank)
  {
    if t.Branch? {
      var l, x, r := t.left, t.value, t.right;
      if k < rank(x) {
        RemoveCorrect(l, k, rank);
        ReducedLeft(t, Remove(l, k, rank), k, Freed(l, k, rank), rank);
      } else if k > rank(x) {
        RemoveCorrect(r, k, rank);
        ReducedRight(t, Remove(r, k, rank), k, Freed(r, k, rank), rank);
      } else if l.Leaf? && r.Leaf? {
      } else if r.Leaf? {
        ReducedOnlyChild(t, l, rank);
      } else if l.Leaf? {
        ReducedOnlyChild(t, r, rank);
      } else {
        var m := rank(MinValue(r));
        RemoveCorrect(r, m, rank);
        ReducedTwoChildren(t, Remove(r, m, rank), Freed(r, m, rank), rank);
      }
    }
  }

  lemma {:induction false} RemoveNodes<N, T>(t: Tree<N, T>, k: int, rank: T -> int)
    requires Ordered(t, rank) && Distinct(t)
    ensures Freed(t, k, rank) <= Nodes(t)
    ensures Nodes(Remove(t, k, rank)) == Nodes(t) - Freed(t, k, rank)
    ensures Distinct(Remove(t, k, rank))
  {
    RemoveCorrect(t, k, rank);
  }

  /** Exactly one node is given back when the value is there, and none when it is not. */
  lemma {:induction false} FreedOne<N, T>(t: Tree<N, T>, k: int, rank: T -> int)
    requires Ordered(t, rank)
    ensures |Freed(t, k, rank)| == if Member(t, rank, k) then 1 else 0
  {
    if t.Branch? {
      MemberSide(t, rank, k);
      if k < rank(t.value) {
        FreedOne(t.left, k, rank);
      } else if k > rank(t.value) {
        FreedOne(t.right, k, rank);
      } else if t.left.Branch? && t.right.Branch? {
        MinIsLeast(t.right, rank);
        FreedOne(t.right, rank(MinValue(t.right)), rank);
      }
    }
  }

  /** Every child that the rotation picked by removal dereferences exists. */
  ghost predicate RemoveFixSafe<N, T>(t: Tree<N, T>) {
    && t.Branch?
    && (Balance(t) > 1 ==> t.left.Branch? && (Balance(t.left) < 0 ==> t.left.right.Branch?))
    && (Balance(t) < -1 ==> t.right.Branch? && (Balance(t.right) > 0 ==> t.right.left.Branch?))
  }

  lemma {:induction false} BalancedIsSafe<N, T>(t: Tree<N, T>)
    requires t.Branch? && Balanced(t.left) && Balanced(t.right)
    ensures RemoveFixSafe(t)
  {
    StoredHeight(t.left);
    StoredHeight(t.right);
    if t.left.Branch? {
      StoredHeight(t.left.left);
      StoredHeight(t.left.right);
    }
    if t.right.Branch? {
      StoredHeight(t.right.left);
      StoredHeight(t.right.right);
    }
  }

  /** One level of removal: the branch that is about to be rebalanced. */
  ghost predicate ReadyToFix<N, T>(t: Tree<N, T>, j: Tree<N, T>) {
    j.Branch? && Distinct(j) && RemoveFixSafe(j) && Nodes(j) <= Nodes(t)
  }

  lemma {:induction false} RemoveStepLeft<N, T>(t: Tree<N, T>, k: int, rank: T -> int)
    requires t.Branch? && Avl(t, rank) && Distinct(t) && k < rank(t.value)
    ensures var l := Remove(t.left, k, rank);
            Nodes(l) <= Nodes(t.left) && ReadyToFix(t, Join(t.node, l, t.value, t.right))
    ensures Nodes(Join(t.node, Remove(t.left, k, rank), t.value, t.right)) !! Freed(t.left, k, rank)
  {
    var l := Remove(t.left, k, rank);
    Unfold(t);
    RemoveCorrect(t.left, k, rank);
    RemoveBalanced(t.left, k, rank);
    BalancedIsSafe(Join(t.node, l, t.value, t.right));
  }

  lemma {:induction false} RemoveStepRight<N, T>(t: Tree<N, T>, k: int, rank: T -> int)
    requires t.Branch? && Avl(t, rank) && Distinct(t) && k > rank(t.value)
    ensures var r := Remove(t.right, k, rank);
            Nodes(r) <= Nodes(t.right) && ReadyToFix(t, Join(t.node, t.left, t.value, r))
    ensures Nodes(Join(t.node, t.left, t.value, Remove(t.right, k, rank))) !! Freed(t.right, k, rank)
  {
    var r := Remove(t.right, k, rank);
    Unfold(t);
    RemoveCorrect(t.right, k, rank);
    RemoveBalanced(t.right, k, rank);
    BalancedIsSafe(Join(t.node, t.left, t.value, r));
  }

  lemma {:induction false} OnlyChildDisjoint<N, T>(t: Tree<N, T>, c: Tree<N, T>)
    requires t.Branch? && Distinct(t) && c.Branch? && (c == t.left || c == t.right)
    ensures t.node != c.node && {t.node, c.node} !! Nodes(c.left) !! Nodes(c.right)
    ensures Distinct(c) && Nodes(c) <= Nodes(t)
  {
    Unfold(t);
    Unfold(c);
    assert Distinct(c);
  }

  lemma {:induction false} RemoveStepOnlyChild<N, T>(t: Tree<N, T>, c: Tree<N, T>)
    requires t.Branch? && Balanced(t) && Distinct(t) && c.Branch? && (c == t.left || c == t.right)
    ensures ReadyToFix(t, Join(t.node, c.left, c.value, c.right))
    ensures c.node !in Nodes(Join(t.node, c.left, c.value, c.right))
  {
    OnlyChildDisjoint(t, c);
    Unfold(t);
    Unfold(c);
    var j := Join(t.node, c.left, c.value, c.right);
    Unfold(j);
    assert Distinct(j);
    assert Balanced(c);
    BalancedIsSafe(j);
  }

  lemma {:induction false} RemoveStepSuccessor<N, T>(t: Tree<N, T>, rank: T -> int)
    requires t.Branch? && Avl(t, rank) && Distinct(t) && t.left.Branch? && t.right.Branch?
    ensures var k := rank(MinValue(t.right));
            var j := Join(t.node, t.left, MinValue(t.right), Remove(t.right, k, rank));
            ReadyToFix(t, j) && Nodes(j) !! Freed(t.right, k, rank)
  {
    var k := rank(MinValue(t.right));
    var r := Remove(t.right, k, rank);
    Unfold(t);
    RemoveCorrect(t.right, k, rank);
    RemoveBalanced(t.right, k, rank);
    BalancedIsSafe(Join(t.node, t.left, MinValue(t.right), r));
  }

  // ----- In-order traversal, size and height

  lemma {:induction false} NodeCount<N, T>(t: Tree<N, T>)
    requires Distinct(t)
    ensures |Nodes(t)| == Size(t)
  {
    if t.Branch? {
      NodeCount(t.left);
      NodeCount(t.right);
      Unfold(t);
      assert |Nodes(t.left) + Nodes(t.right)| == |Nodes(t.left)| + |Nodes(t.right)|;
    }
  }

  ghost predicate Increasing<T>(s: seq<T>, rank: T -> int) {
    forall i, j :: 0 <= i < j < |s| ==> rank(s[i]) < rank(s[j])
  }

  /** The traversal lists exactly the elements. */
  lemma {:induction false} InOrderLists<N, T>(t: Tree<N, T>, x: T)
    ensures x in InOrder(t) <==> x in Values(t)
  {
    if t.Branch? {
      InOrderLists(t.left, x);
      InOrderLists(t.right, x);
    }
  }

  /** The traversal lists the elements in strictly increasing order. */
  lemma {:induction false} InOrderSorted<N, T>(t: Tree<N, T>, rank: T -> int)
    requires Ordered(t, rank)
    ensures Increasing(InOrder(t), rank)
  {
    if t.Branch? {
      InOrderSorted(t.left, rank);
      InOrderSorted(t.right, rank);
      forall x | x in InOrder(t.left)
        ensures rank(x) < rank(t.value)
      {
        InOrderLists(t.left, x);
      }
      forall x | x in InOrder(t.right)
        ensures rank(t.value) < rank(x)
      {
        InOrderLists(t.right, x);
      }
    }
  }

  lemma {:induction false} SizeCounts<N, T>(t: Tree<N, T>, rank: T -> int)
    requires Ordered(t, rank)
    ensures |Values(t)| == Size(t)
  {
    if t.Branch? {
      SizeCounts(t.left, rank);
      SizeCounts(t.right, rank);
      assert Values(t.left) !! Values(t.right);
      assert t.value !in Values(t.left) + Values(t.right);
    }
  }

  function Fib(n: nat): nat {
    if n < 2 then n else Fib(n - 1) + Fib(n - 2)
  }

  lemma {:induction false} FibOfJoin(a: nat, b: nat)
    requires -1 <= a - b <= 1
    ensures Fib(a + 2) + Fib(b + 2) >= Fib(Max(a, b) + 3)
  {
    var d := Max(a, b);
    assert Fib(d + 3) == Fib(d + 2) + Fib(d + 1);
  }

  /** The height bound of AVL trees. */
  lemma {:induction false} FibonacciBound<N, T>(t: Tree<N, T>)
    requires Balanced(t)
    ensures Size(t) + 1 >= Fib(Depth(t) + 2)
  {
    if t.Branch? {
      var a, b := Depth(t.left), Depth(t.right);
      FibonacciBound(t.left);
      FibonacciBound(t.right);
      FibOfJoin(a, b);
    } else {
      assert Fib(2) == 1;
    }
  }

  lemma {:induction false} FibDoubles(n: nat)
    ensures Fib(2 * n + 1) >= Pow2(n) && Fib(2 * n + 2) >= Pow2(n)
  {
    if n > 0 {
      FibDoubles(n - 1);
      assert Fib(2 * n + 1) == Fib(2 * n) + Fib(2 * n - 1);
    }
  }

  lemma {:induction false} FibHalf(d: nat)
    ensures Fib(d + 2) >= Pow2(d / 2)
  {
    var h := d / 2;
    FibDoubles(h);
  }

  /** The height is at most about twice the binary logarithm of the size. */
  lemma {:induction false} HeightLogarithmic<N, T>(t: Tree<N, T>)
    requires Balanced(t)
    ensures Pow2(Depth(t) / 2) <= Size(t) + 1
  {
    FibonacciBound(t);
    FibHalf(Depth(t));
  }

  /** A set whose size fits a 64-bit counter has a height far below the 32-bit field
      that stores it. */
  lemma {:induction false} HeightFits<N, T>(t: Tree<N, T>)
    requires Balanced(t) && Size(t) < WORD
    ensures Depth(t) <= 129
  {
    HeightLogarithmic(t);
    Pow2Word();
    if Depth(t) / 2 > 64 {
      Pow2Monotone(64, Depth(t) / 2);
    }
  }
}
