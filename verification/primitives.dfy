/**
 * The local primitives of the balancing engine (Tree.java, "Scaffolding"):
 * colour flips, which change colour bits and nothing else, and rotations,
 * which relink a node and one child and keep the in-order sequence.
 *
 * Each Java primitive mutates the nodes it is given; here it returns the
 * rebuilt subtree. Where the Java code would touch the sentinel (recolour
 * the shared `nil`, or follow its null links) the primitive returns its
 * argument unchanged; no caller does that on a valid tree.
 */
module Primitives {
  import opened Nodes

  function Toggle(c: Color): Color {
    if c == Black then Red else Black
  }

  /** flip: toggles the colour of node v. */
  function Flip<T>(v: Node<T>): (r: Node<T>)
    ensures Uncolored(r) == Uncolored(v)
    ensures v.Node? ==> (IsRed(r) <==> IsBlack(v))
    ensures v.Node? ==> r.left == v.left && r.right == v.right
  {
    if v.Nil? then v else v.(color := Toggle(v.color))
  }

  /** flipLeft: exchanges the colours of v and its left child. */
  function FlipLeft<T>(v: Node<T>): (r: Node<T>)
    ensures Uncolored(r) == Uncolored(v)
    ensures v.Node? && v.left.Node? ==>
      && r.color == v.left.color && r.left.color == v.color
      && r.right == v.right && r.left.left == v.left.left && r.left.right == v.left.right
  {
    if v.Nil? || v.left.Nil? then v
    else v.(color := v.left.color, left := v.left.(color := v.color))
  }

  /** flipRight: exchanges the colours of v and its right child. */
  function FlipRight<T>(v: Node<T>): (r: Node<T>)
    ensures Uncolored(r) == Uncolored(v)
    ensures v.Node? && v.right.Node? ==>
      && r.color == v.right.color && r.right.color == v.color
      && r.left == v.left && r.right.left == v.right.left && r.right.right == v.right.right
  {
    if v.Nil? || v.right.Nil? then v
    else v.(color := v.right.color, right := v.right.(color := v.color))
  }

  /**
   * flipBoth: v takes its left child's colour and both children take
   * v's old colour (the right child's own colour is overwritten, not
   * exchanged).
   */
  function FlipBoth<T>(v: Node<T>): (r: Node<T>)
    ensures Uncolored(r) == Uncolored(v)
    ensures v.Node? && v.left.Node? && v.right.Node? ==>
      && r.color == v.left.color && r.left.color == v.color && r.right.color == v.color
      && r.left.left == v.left.left && r.left.right == v.left.right
      && r.right.left == v.right.left && r.right.right == v.right.right
  {
    if v.Nil? || v.left.Nil? || v.right.Nil? then v
    else v.(color := v.left.color, left := v.left.(color := v.color), right := v.right.(color := v.color))
  }

  /**
   * rotateRight: the left child w of v becomes the subtree root, v
   * becomes w's right child and takes w's old right subtree as its left.
   * Colours stay with their nodes.
   */
  function RotateRight<T>(v: Node<T>): (r: Node<T>)
    ensures Inorder(r) == Inorder(v) && Keys(r) == Keys(v) && Size(r) == Size(v)
    ensures BST(r) <==> BST(v)
    ensures BST(v) ==> Contents(r) == Contents(v)
  {
    if v.Nil? || v.left.Nil? then v
    else
      var w := v.left;
      var r := w.(right := v.(left := w.right));
      assert Inorder(r) == Inorder(w.left) + [(w.key, w.item)] + (Inorder(w.right) + [(v.key, v.item)] + Inorder(v.right));
      SameInorder(r, v);
      r
  }

  /**
   * rotateLeft: the right child w of v becomes the subtree root, v
   * becomes w's left child and takes w's old left subtree as its right.
   * Colours stay with their nodes.
   */
  function RotateLeft<T>(v: Node<T>): (r: Node<T>)
    ensures Inorder(r) == Inorder(v) && Keys(r) == Keys(v) && Size(r) == Size(v)
    ensures BST(r) <==> BST(v)
    ensures BST(v) ==> Contents(r) == Contents(v)
  {
    if v.Nil? || v.right.Nil? then v
    else
      var w := v.right;
      var r := w.(left := v.(right := w.left));
      assert Inorder(r) == (Inorder(v.left) + [(v.key, v.item)] + Inorder(w.left)) + [(w.key, w.item)] + Inorder(w.right);
      SameInorder(r, v);
      r
  }

  /** The two rotations undo each other. */
  lemma RotationsInverse<T>(v: Node<T>)
    ensures v.Node? && v.left.Node? ==> RotateLeft(RotateRight(v)) == v
    ensures v.Node? && v.right.Node? ==> RotateRight(RotateLeft(v)) == v
  {
  }

  /** Forcing a colour to black (the public insert and delete do this to the root). */
  function Blacken<T>(v: Node<T>): (r: Node<T>)
    ensures Uncolored(r) == Uncolored(v) && IsBlack(r)
    ensures v.Node? ==> r.left == v.left && r.right == v.right
  {
    if v.Nil? then v else v.(color := Black)
  }
}
