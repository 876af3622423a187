/**
 Expressions: the flat arena the parser fills, whose nodes name their children by index, and the
 algebraic trees it stands for.
 */
module Expressions {
  import opened Values

  datatype BinaryOperator =
    | EQUAL | NOT_EQUAL | LESS_THAN | LESS_THAN_OR_EQUAL | GREATER_THAN | GREATER_THAN_OR_EQUAL
    | AND | OR | ADD | SUBTRACT | MULTIPLY | DIVIDE | IS | IS_NOT

  datatype UnaryOperator = NOT | NEGATE

  /** A node without children. A FLOAT literal keeps its digits; its value is `FloatArith.parse` of them. */
  datatype Atom =
    | LiteralInt(i: int64)
    | LiteralFloat(digits: Text)
    | LiteralText(s: Text)
    | LiteralBool(b: bool)
    | LiteralNull
    | ColumnRef(prefix: Text, name: Text)
    | Star

  datatype Expression =
    | Leaf(atom: Atom)
    | Binary(op: BinaryOperator, leftIndex: nat, rightIndex: nat)
    | Unary(uop: UnaryOperator, operandIndex: nat)

  datatype Tree =
    | Tip(atom: Atom)
    | Node(op: BinaryOperator, left: Tree, right: Tree)
    | Prefix(uop: UnaryOperator, operand: Tree)

  type Arena = seq<Expression>

  predicate NodeInside(e: Expression, below: nat) {
    match e
    case Leaf(_) => true
    case Binary(_, l, r) => l < below && r < below
    case Unary(_, x) => x < below
  }

  /** Children come before their parents. */
  predicate ChildrenFirst(arena: Arena) {
    forall i :: 0 <= i < |arena| ==> NodeInside(arena[i], i)
  }

  /** The tree rooted at index `i`. */
  function TreeAt(arena: Arena, i: nat): Tree
    requires ChildrenFirst(arena) && i < |arena|
    decreases i
  {
    assert NodeInside(arena[i], i);
    match arena[i]
    case Leaf(a) => Tip(a)
    case Binary(op, l, r) => Node(op, TreeAt(arena, l), TreeAt(arena, r))
    case Unary(op, x) => Prefix(op, TreeAt(arena, x))
  }

  function Size(t: Tree): (n: nat)
    ensures n > 0
  {
    match t
    case Tip(_) => 1
    case Node(_, l, r) => Size(l) + Size(r) + 1
    case Prefix(_, x) => Size(x) + 1
  }

  /** The nodes of `t` in post-order, as they lie in an arena that had `base` nodes before. */
  function PostOrder(t: Tree, base: nat): (nodes: Arena)
    ensures |nodes| == Size(t)
  {
    match t
    case Tip(a) => [Leaf(a)]
    case Node(op, l, r) =>
      PostOrder(l, base) + PostOrder(r, base + Size(l))
        + [Binary(op, base + Size(l) - 1, base + Size(l) + Size(r) - 1)]
    case Prefix(op, x) => PostOrder(x, base) + [Unary(op, base + Size(x) - 1)]
  }

  /** Later nodes do not change earlier trees. */
  lemma {:induction false} TreeAtGrows(arena: Arena, larger: Arena, i: nat)
    requires ChildrenFirst(arena) && ChildrenFirst(larger)
    requires arena <= larger && i < |arena|
    ensures TreeAt(larger, i) == TreeAt(arena, i)
    decreases i
  {
    assert NodeInside(arena[i], i) && larger[i] == arena[i];
    match arena[i]
    case Leaf(_) =>
    case Binary(_, l, r) =>
      TreeAtGrows(arena, larger, l);
      TreeAtGrows(arena, larger, r);
    case Unary(_, x) =>
      TreeAtGrows(arena, larger, x);
  }

  /** The tree a new node makes of the trees already in the arena. */
  function NewTree(arena: Arena, e: Expression): Tree
    requires ChildrenFirst(arena) && NodeInside(e, |arena|)
  {
    match e
    case Leaf(a) => Tip(a)
    case Binary(op, l, r) => Node(op, TreeAt(arena, l), TreeAt(arena, r))
    case Unary(op, x) => Prefix(op, TreeAt(arena, x))
  }

  /** Appending the parent of the two latest trees, or of the latest one. */
  lemma AppendedNode(arena: Arena, e: Expression)
    requires ChildrenFirst(arena) && NodeInside(e, |arena|)
    ensures ChildrenFirst(arena + [e])
    ensures TreeAt(arena + [e], |arena|) == NewTree(arena, e)
  {
    var all := arena + [e];
    assert forall i | 0 <= i < |arena| :: all[i] == arena[i];
    match e
    case Leaf(_) =>
    case Binary(_, l, r) =>
      TreeAtGrows(arena, all, l);
      TreeAtGrows(arena, all, r);
    case Unary(_, x) =>
      TreeAtGrows(arena, all, x);
  }

  /** `t` is the tree of the latest node. */
  ghost predicate Rooted(arena: Arena, t: Tree) {
    arena != [] && ChildrenFirst(arena) && TreeAt(arena, |arena| - 1) == t
  }

  lemma JoinRoots(first: Arena, second: Arena, op: BinaryOperator, l: Tree, r: Tree)
    requires Rooted(first, l) && Rooted(second, r) && first <= second
    ensures Rooted(second + [Binary(op, |first| - 1, |second| - 1)], Node(op, l, r))
  {
    TreeAtGrows(first, second, |first| - 1);
    AppendedNode(second, Binary(op, |first| - 1, |second| - 1));
  }

  lemma PrefixRoot(arena: Arena, op: UnaryOperator, x: Tree)
    requires Rooted(arena, x)
    ensures Rooted(arena + [Unary(op, |arena| - 1)], Prefix(op, x))
  {
    AppendedNode(arena, Unary(op, |arena| - 1));
  }

  /**
   A tree laid out in post-order after `arena` is a well-formed arena again, and its last node is
   the root of exactly that tree.
   */
  lemma {:induction false} PostOrderDecodes(arena: Arena, t: Tree)
    requires ChildrenFirst(arena)
    ensures Rooted(arena + PostOrder(t, |arena|), t)
    decreases t
  {
    match t
    case Tip(a) =>
      AppendedNode(arena, Leaf(a));
    case Prefix(op, x) =>
      var inner := arena + PostOrder(x, |arena|);
      PostOrderDecodes(arena, x);
      PrefixRoot(inner, op, x);
      assert arena + PostOrder(t, |arena|) == inner + [Unary(op, |inner| - 1)];
    case Node(op, l, r) =>
      var first := arena + PostOrder(l, |arena|);
      var second := first + PostOrder(r, |first|);
      PostOrderDecodes(arena, l);
      PostOrderDecodes(first, r);
      JoinRoots(first, second, op, l, r);
      assert arena + PostOrder(t, |arena|) == second + [Binary(op, |first| - 1, |second| - 1)];
  }

  /** The last child of the node at index `at` is the node just before it, and no child lies before `base`. */
  predicate NodeShape(e: Expression, base: nat, at: nat) {
    match e
    case Leaf(_) => true
    case Binary(_, l, r) => base <= l < r == at - 1
    case Unary(_, x) => base <= x == at - 1
  }

  ghost predicate Shaped(nodes: Arena, base: nat) {
    forall i: nat :: i < |nodes| ==> NodeShape(nodes[i], base, base + i)
  }

  lemma ShapedBoth(a: Arena, b: Arena, base: nat)
    requires Shaped(a, base) && Shaped(b, base + |a|)
    ensures Shaped(a + b, base)
  {
    forall i: nat | i < |a + b|
      ensures NodeShape((a + b)[i], base, base + i)
    {
      if i < |a| {
        assert NodeShape(a[i], base, base + i);
      } else {
        assert NodeShape(b[i - |a|], base + |a|, base + i);
      }
    }
  }

  /** The nodes of one expression fill one block of the arena, in post-order. */
  lemma {:induction false} PostOrderShape(t: Tree, base: nat)
    ensures Shaped(PostOrder(t, base), base)
  {
    match t
    case Tip(_) =>
    case Prefix(op, x) =>
      PostOrderShape(x, base);
    case Node(op, l, r) =>
      PostOrderShape(l, base);
      PostOrderShape(r, base + Size(l));
      ShapedBoth(PostOrder(l, base), PostOrder(r, base + Size(l)), base);
  }

  predicate HasChild(e: Expression, j: nat) {
    match e
    case Leaf(_) => false
    case Binary(_, l, r) => j == l || j == r
    case Unary(_, x) => j == x
  }

  lemma ChildRange(nodes: Arena, base: nat, i: nat, j: nat)
    requires Shaped(nodes, base) && i < |nodes| && HasChild(nodes[i], j)
    ensures base <= j < base + i
  {
    assert NodeShape(nodes[i], base, base + i);
  }

  /** Where the blocks of the two subtrees lie in the block of their parent. */
  lemma BlockOfChild(t: Tree, base: nat, i: nat)
    requires t.Node? && i < Size(t) - 1
    ensures PostOrder(t, base)[i] ==
      if i < Size(t.left) then PostOrder(t.left, base)[i]
      else PostOrder(t.right, base + Size(t.left))[i - Size(t.left)]
  {
  }

  lemma ChildRangeInPart(t: Tree, base: nat, i: nat, j: nat)
    requires t.Node? && i < Size(t) - 1 && HasChild(PostOrder(t, base)[i], j)
    ensures if i < Size(t.left) then base <= j < base + i else base + Size(t.left) <= j < base + i
  {
    hide HasChild, Shaped;
    var m := Size(t.left);
    BlockOfChild(t, base, i);
    PostOrderShape(t.left, base);
    PostOrderShape(t.right, base + m);
    if i < m {
      ChildRange(PostOrder(t.left, base), base, i, j);
    } else {
      ChildRange(PostOrder(t.right, base + m), base + m, i - m, j);
    }
  }

  /** No node of an expression has two parents. */
  lemma {:induction false} OneParent(t: Tree, base: nat, i: nat, k: nat, j: nat)
    requires i < k < Size(t)
    requires HasChild(PostOrder(t, base)[i], j)
    ensures !HasChild(PostOrder(t, base)[k], j)
    decreases t, 1
  {
    match t
    case Tip(_) =>
    case Prefix(_, x) =>
      PostOrderShape(x, base);
      ChildRange(PostOrder(x, base), base, i, j);
      if k < Size(x) {
        OneParent(x, base, i, k, j);
      }
    case Node(_, l, r) =>
      ChildRangeInPart(t, base, i, j);
      if k < Size(t) - 1 {
        OneParentBelow(t, base, i, k, j);
      }
  }

  lemma {:induction false} OneParentBelow(t: Tree, base: nat, i: nat, k: nat, j: nat)
    requires t.Node? && i < k < Size(t) - 1
    requires HasChild(PostOrder(t, base)[i], j)
    ensures !HasChild(PostOrder(t, base)[k], j)
    decreases t, 0
  {
    hide PostOrder, HasChild;
    var m := Size(t.left);
    BlockOfChild(t, base, i);
    BlockOfChild(t, base, k);
    if k < m {
      OneParent(t.left, base, i, k, j);
    } else if i >= m {
      OneParent(t.right, base + m, i - m, k - m, j);
    } else if HasChild(PostOrder(t, base)[k], j) {
      ChildRangeInPart(t, base, i, j);
      ChildRangeInPart(t, base, k, j);
    }
  }
}
