/**
 * The red-black colour rules (Tree.java, valid): no red node has a red
 * child, and every path from a node down to the sentinel meets the same
 * number of black nodes.
 */
module RedBlack {
  import opened Nodes
  import opened Primitives

  /**
   * v obeys the colour rules and every path from v down to the sentinel
   * meets h black nodes (v itself counted, the sentinel not).
   */
  ghost predicate RB<T>(v: Node<T>, h: int) {
    match v
    case Nil => h == 0
    case Node(c, _, _, l, r) =>
      var hc := if c == Black then h - 1 else h;
      RB(l, hc) && RB(r, hc) && (c == Red ==> IsBlack(l) && IsBlack(r))
  }

  /**
   * As RB, except that a red v may have red children: the shape a subtree
   * can have while a violation is being pushed towards the root.
   */
  ghost predicate Relaxed<T>(v: Node<T>, h: int) {
    match v
    case Nil => h == 0
    case Node(c, _, _, l, r) =>
      var hc := if c == Black then h - 1 else h;
      RB(l, hc) && RB(r, hc)
  }

  /** The number of black nodes on the path that always goes left. */
  ghost function LeftBlackHeight<T>(v: Node<T>): nat {
    match v
    case Nil => 0
    case Node(c, _, _, l, _) => LeftBlackHeight(l) + (if c == Black then 1 else 0)
  }

  /** A black root has no red child to break the stricter rule. */
  lemma RelaxedBlack<T>(v: Node<T>, h: int)
    requires Relaxed(v, h) && IsBlack(v)
    ensures RB(v, h)
  {
  }

  /** A valid red-black tree: black root, and the colour rules throughout. */
  ghost predicate IsRedBlack<T>(v: Node<T>) {
    IsBlack(v) && RB(v, LeftBlackHeight(v))
  }

  /** The black height of a red-black subtree is the one its left spine shows. */
  lemma {:induction false} BlackHeightIsLeftSpine<T>(v: Node<T>, h: int)
    requires RB(v, h)
    ensures h == LeftBlackHeight(v)
  {
    if v.Node? {
      BlackHeightIsLeftSpine(v.left, if v.color == Black then h - 1 else h);
    }
  }

  /** A tree is valid exactly when its root is black and it obeys the rules at some black height. */
  lemma RedBlackAtSomeHeight<T>(v: Node<T>, h: int)
    requires IsBlack(v) && RB(v, h)
    ensures IsRedBlack(v)
  {
    BlackHeightIsLeftSpine(v, h);
  }

  /**
   * valid(Node, int, int): i black nodes were met above v, and every path
   * must meet b in all.
   */
  function ValidFrom<T>(v: Node<T>, i: int, b: int): (r: bool)
    ensures r <==> RB(v, b - i)
  {
    if v.Node? then
      var i' := i + (if IsBlack(v) then 1 else 0);
      && (IsBlack(v) || (IsRed(v) && IsBlack(v.left) && IsBlack(v.right)))
      && ValidFrom(v.left, i', b)
      && ValidFrom(v.right, i', b)
    else
      i == b
  }

  /** The height of a subtree: the number of nodes on its longest path. */
  function Height<T>(v: Node<T>): nat {
    if v.Nil? then 0 else 1 + (if Height(v.left) < Height(v.right) then Height(v.right) else Height(v.left))
  }

  function Pow2(n: nat): nat {
    if n == 0 then 1 else 2 * Pow2(n - 1)
  }

  /**
   * The balance the colour rules buy: a subtree of black height h is at
   * most 2h (2h + 1 under a red root) nodes high and holds at least
   * 2^h - 1 nodes, so its height is logarithmic in its size.
   */
  lemma {:induction false} Balanced<T>(v: Node<T>, h: int)
    requires RB(v, h)
    ensures h >= 0
    ensures Height(v) <= 2 * h + (if IsRed(v) then 1 else 0)
    ensures Size(v) + 1 >= Pow2(h)
  {
    if v.Node? {
      var hc := if v.color == Black then h - 1 else h;
      Balanced(v.left, hc);
      Balanced(v.right, hc);
      if v.color == Red {
        assert !IsRed(v.left) && !IsRed(v.right);
      } else {
        assert Pow2(h) == 2 * Pow2(hc);
      }
    }
  }

  /** Forcing the root black keeps the colour rules, one black level higher when it was red. */
  lemma BlackenKeepsRules<T>(t: Node<T>, h: int)
    requires RB(t, h)
    ensures IsRedBlack(Blacken(t))
  {
    if IsRed(t) {
      BlackenRed(t, h);
      RedBlackAtSomeHeight(Blacken(t), h + 1);
    } else {
      BlackenBlack(t);
      RedBlackAtSomeHeight(t, h);
    }
  }

  /** A root that is already black is left as it is. */
  lemma BlackenBlack<T>(t: Node<T>)
    requires !IsRed(t)
    ensures Blacken(t) == t
  {
  }

  /** A red root turned black adds one black node to every path. */
  lemma BlackenRed<T>(t: Node<T>, h: int)
    requires RB(t, h) && IsRed(t)
    ensures RB(Blacken(t), h + 1)
  {
    assert RB(t.left, h) && RB(t.right, h);
  }
}
