/**
 * Upsert insertion (Tree.java: insert(Node, int, Object) and
 * insertRestore). The recursion returns the new subtree root; on the way
 * back up, insertRestore repairs a red node with a red child on the path
 * the key took, by a colour flip (Cases 3, 4, 7, 8) that pushes the
 * violation up, or by one or two rotations (Cases 5, 6, 9, 10) that end it.
 */
module Insertion {
  import opened Nodes
  import opened Primitives
  import opened RedBlack
  import opened Navigation

  /**
   * insertRestore: restores the colour rules at v after key k was
   * inserted below it. Only rotations and flips are used, so the entries
   * and their order are untouched.
   */
  function InsertRestore<T>(v: Node<T>, k: int): (r: Node<T>)
    ensures Inorder(r) == Inorder(v) && Keys(r) == Keys(v)
    ensures BST(r) <==> BST(v)
    ensures BST(v) ==> Contents(r) == Contents(v)
  {
    var r :=
      if v.Node? && IsBlack(v) then
        if k < v.key then RedRedLeft(v, k) else RedRedRight(v, k)
      else v;
    SameInorder(r, v);
    r
  }

  /**
   * insertRestore at a black v when k went down the left side: Cases 3
   * to 6 act on a red left child w with a red child on k's path.
   */
  function RedRedLeft<T>(v: Node<T>, k: int): (r: Node<T>)
    requires v.Node?
    ensures Inorder(r) == Inorder(v)
  {
    var w := v.left;
    if IsRed(w) then
      if IsRed(v.right) then
        if (k < w.key && IsRed(w.left)) || (k > w.key && IsRed(w.right)) then
          FlipBoth(v)                                             // Cases 3 and 4
        else v
      else if k < w.key && IsRed(w.left) then
        RotateRight(FlipLeft(v))                                  // Case 5
      else if k > w.key && IsRed(w.right) then
        RotateRight(FlipLeft(v.(left := RotateLeft(w))))          // Case 6
      else v
    else v
  }

  /** Cases 7 to 10, the mirror image of RedRedLeft. */
  function RedRedRight<T>(v: Node<T>, k: int): (r: Node<T>)
    requires v.Node?
    ensures Inorder(r) == Inorder(v)
  {
    var w := v.right;
    if IsRed(w) then
      if IsRed(v.left) then
        if (k > w.key && IsRed(w.right)) || (k < w.key && IsRed(w.left)) then
          FlipBoth(v)                                             // Cases 7 and 8
        else v
      else if k > w.key && IsRed(w.right) then
        RotateLeft(FlipRight(v))                                  // Case 9
      else if k < w.key && IsRed(w.left) then
        RotateLeft(FlipRight(v.(right := RotateRight(w))))        // Case 10
      else v
    else v
  }

  /**
   * insert(Node, int, Object): inserts (k, x) into subtree v, creating a
   * red node where the search falls off the tree and overwriting the item
   * when k is already present.
   */
  function Insert<T>(v: Node<T>, k: int, x: T): (r: Node<T>)
    ensures Keys(r) == Keys(v) + {k}
    ensures BST(v) ==> BST(r) && Contents(r) == Contents(v)[k := x]
  {
    if v.Nil? then Node(Red, k, x, Nil, Nil)
    else if k < v.key then
      var l := Insert(v.left, k, x);
      InsertedLeft(v, l, k, x);
      InsertRestore(v.(left := l), k)
    else if k > v.key then
      var rt := Insert(v.right, k, x);
      InsertedRight(v, rt, k, x);
      InsertRestore(v.(right := rt), k)
    else v.(item := x)
  }

  /** Replacing the left child of v by that child with (k, x) added. */
  lemma InsertedLeft<T>(v: Node<T>, c: Node<T>, k: int, x: T)
    requires v.Node? && k < v.key && Keys(c) == Keys(v.left) + {k}
    requires BST(v.left) ==> BST(c) && Contents(c) == Contents(v.left)[k := x]
    ensures Keys(v.(left := c)) == Keys(v) + {k}
    ensures BST(v) ==> BST(v.(left := c)) && Contents(v.(left := c)) == Contents(v)[k := x]
  {
    var t := v.(left := c);
    assert t == Node(v.color, v.key, v.item, c, v.right);
    if BST(v) {
      AddedBelow(v, t, k, x);
    }
  }

  /** Replacing the right child of v by that child with (k, x) added. */
  lemma InsertedRight<T>(v: Node<T>, c: Node<T>, k: int, x: T)
    requires v.Node? && v.key < k && Keys(c) == Keys(v.right) + {k}
    requires BST(v.right) ==> BST(c) && Contents(c) == Contents(v.right)[k := x]
    ensures Keys(v.(right := c)) == Keys(v) + {k}
    ensures BST(v) ==> BST(v.(right := c)) && Contents(v.(right := c)) == Contents(v)[k := x]
  {
    var t := v.(right := c);
    assert t == Node(v.color, v.key, v.item, v.left, c);
    if BST(v) {
      AddedBelow(v, t, k, x);
    }
  }

  /** The entries of v with one child replaced by that child with (k, x) added. */
  lemma AddedBelow<T>(v: Node<T>, t: Node<T>, k: int, x: T)
    requires v.Node? && t.Node? && BST(v) && t.key == v.key && t.item == v.item
    requires k < v.key ==> t.right == v.right && Contents(t.left) == Contents(v.left)[k := x]
    requires v.key < k ==> t.left == v.left && Contents(t.right) == Contents(v.right)[k := x]
    requires k != v.key
    ensures Contents(t) == Contents(v)[k := x]
  {
    var L, R := Contents(v.left), Contents(v.right);
    var lhs, rhs := Contents(t), Contents(v)[k := x];
    assert k < v.key ==> k !in R;
    assert v.key < k ==> k !in L;
    assert lhs.Keys == rhs.Keys;
    forall j | j in lhs ensures lhs[j] == rhs[j] { }
  }

  /**
   * A red subtree as insertion leaves it: its children obey the colour
   * rules at black height h, and a red child can only sit on the side
   * that key k went down.
   */
  ghost predicate RedOnPath<T>(v: Node<T>, h: int, k: int) {
    && v.Node? && v.color == Red && RB(v.left, h) && RB(v.right, h)
    && (IsRed(v.left) ==> k < v.key)
    && (IsRed(v.right) ==> v.key < k)
  }

  /**
   * insertRestore at a black node v whose left child is where k went:
   * the result obeys the colour rules with v's black height.
   */
  lemma InsertRestoreLeft<T>(v: Node<T>, k: int, h: int)
    requires v.Node? && v.color == Black && k < v.key
    requires RB(v.left, h - 1) || RedOnPath(v.left, h - 1, k)
    requires RB(v.right, h - 1)
    ensures RB(RedRedLeft(v, k), h)
  {
    var w := v.left;
    if IsRed(w) {
      assert RB(w.left, h - 1) && RB(w.right, h - 1);
      if IsRed(v.right) {
        if (k < w.key && IsRed(w.left)) || (k > w.key && IsRed(w.right)) {
          RecoloredUp(v, h);
        }
      } else if k < w.key && IsRed(w.left) {
        OuterRotatedLeft(v, h);
      } else if k > w.key && IsRed(w.right) {
        InnerRotatedLeft(v, h);
      }
    }
  }

  /** Cases 3, 4, 7 and 8: a black node with two red children swaps colours with them. */
  lemma RecoloredUp<T>(v: Node<T>, h: int)
    requires v.Node? && v.color == Black && IsRed(v.left) && IsRed(v.right)
    requires RB(v.left.left, h - 1) && RB(v.left.right, h - 1)
    requires RB(v.right.left, h - 1) && RB(v.right.right, h - 1)
    ensures RB(FlipBoth(v), h)
  {
  }

  /** Case 5: a red left child with a red left child is rotated up. */
  lemma OuterRotatedLeft<T>(v: Node<T>, h: int)
    requires v.Node? && v.color == Black && !IsRed(v.right) && RB(v.right, h - 1)
    requires v.left.Node? && v.left.color == Red && IsRed(v.left.left) && !IsRed(v.left.right)
    requires RB(v.left.left, h - 1) && RB(v.left.right, h - 1)
    ensures RB(RotateRight(FlipLeft(v)), h)
  {
    var w := v.left;
    assert RotateRight(FlipLeft(v)) == Node(Black, w.key, w.item, w.left, Node(Red, v.key, v.item, w.right, v.right));
  }

  /** Case 6: a red left child with a red right child y; y is rotated up twice. */
  lemma InnerRotatedLeft<T>(v: Node<T>, h: int)
    requires v.Node? && v.color == Black && !IsRed(v.right) && RB(v.right, h - 1)
    requires v.left.Node? && v.left.color == Red && IsRed(v.left.right) && !IsRed(v.left.left)
    requires RB(v.left.left, h - 1) && RB(v.left.right, h - 1)
    ensures RB(RotateRight(FlipLeft(v.(left := RotateLeft(v.left)))), h)
  {
    var w, y := v.left, v.left.right;
    assert RB(y.left, h - 1) && RB(y.right, h - 1);
    var a := RotateLeft(w);
    assert a == Node(Red, y.key, y.item, Node(Red, w.key, w.item, w.left, y.left), y.right);
    assert RotateRight(FlipLeft(v.(left := a)))
        == Node(Black, y.key, y.item, Node(Red, w.key, w.item, w.left, y.left), Node(Red, v.key, v.item, y.right, v.right));
  }

  /** The mirror image of InsertRestoreLeft. */
  lemma InsertRestoreRight<T>(v: Node<T>, k: int, h: int)
    requires v.Node? && v.color == Black && v.key < k
    requires RB(v.right, h - 1) || RedOnPath(v.right, h - 1, k)
    requires RB(v.left, h - 1)
    ensures RB(RedRedRight(v, k), h)
  {
    var w := v.right;
    if IsRed(w) {
      assert RB(w.left, h - 1) && RB(w.right, h - 1);
      if IsRed(v.left) {
        if (k > w.key && IsRed(w.right)) || (k < w.key && IsRed(w.left)) {
          RecoloredUp(v, h);
        }
      } else if k > w.key && IsRed(w.right) {
        OuterRotatedRight(v, h);
      } else if k < w.key && IsRed(w.left) {
        InnerRotatedRight(v, h);
      }
    }
  }

  /** Case 9, the mirror image of Case 5. */
  lemma OuterRotatedRight<T>(v: Node<T>, h: int)
    requires v.Node? && v.color == Black && !IsRed(v.left) && RB(v.left, h - 1)
    requires v.right.Node? && v.right.color == Red && IsRed(v.right.right) && !IsRed(v.right.left)
    requires RB(v.right.left, h - 1) && RB(v.right.right, h - 1)
    ensures RB(RotateLeft(FlipRight(v)), h)
  {
    var w := v.right;
    assert RotateLeft(FlipRight(v)) == Node(Black, w.key, w.item, Node(Red, v.key, v.item, v.left, w.left), w.right);
  }

  /** Case 10, the mirror image of Case 6. */
  lemma InnerRotatedRight<T>(v: Node<T>, h: int)
    requires v.Node? && v.color == Black && !IsRed(v.left) && RB(v.left, h - 1)
    requires v.right.Node? && v.right.color == Red && IsRed(v.right.left) && !IsRed(v.right.right)
    requires RB(v.right.left, h - 1) && RB(v.right.right, h - 1)
    ensures RB(RotateLeft(FlipRight(v.(right := RotateRight(v.right)))), h)
  {
    var w, y := v.right, v.right.left;
    assert RB(y.left, h - 1) && RB(y.right, h - 1);
    var a := RotateRight(w);
    assert a == Node(Red, y.key, y.item, y.left, Node(Red, w.key, w.item, y.right, w.right));
    assert RotateLeft(FlipRight(v.(right := a)))
        == Node(Black, y.key, y.item, Node(Red, v.key, v.item, v.left, y.left), Node(Red, w.key, w.item, y.right, w.right));
  }

  /**
   * Insertion into a subtree that obeys the colour rules at black height
   * h: below a black root the result obeys them at h (its root may turn
   * red); below a red root the only violation left is a red child on
   * the key's path, for the parent to repair.
   */
  lemma {:induction false} InsertBalance<T>(v: Node<T>, k: int, x: T, h: int)
    requires RB(v, h)
    ensures IsBlack(v) ==> RB(Insert(v, k, x), h)
    ensures IsRed(v) ==> RedOnPath(Insert(v, k, x), h, k)
  {
    if v.Node? {
      var hc := if v.color == Black then h - 1 else h;
      if k < v.key {
        InsertBalance(v.left, k, x, hc);
        if v.color == Black {
          InsertRestoreLeft(v.(left := Insert(v.left, k, x)), k, h);
        }
      } else if k > v.key {
        InsertBalance(v.right, k, x, hc);
        if v.color == Black {
          InsertRestoreRight(v.(right := Insert(v.right, k, x)), k, h);
        }
      }
    }
  }

  /**
   * The public insert: inserting and then forcing the root black keeps a
   * valid red-black tree valid.
   */
  lemma InsertKeepsRedBlack<T>(v: Node<T>, k: int, x: T)
    requires IsRedBlack(v)
    ensures IsRedBlack(Blacken(Insert(v, k, x)))
  {
    var h := LeftBlackHeight(v);
    InsertBalance(v, k, x, h);
    var t := Insert(v, k, x);
    assert RB(t, h);
    BlackenKeepsRules(t, h);
  }

  /**
   * After inserting (k, x) into an ordered tree, a search for k finds x
   * and a search for any other key finds what it found before.
   */
  lemma FindAfterInsert<T>(v: Node<T>, k: int, x: T, j: int)
    requires BST(v)
    ensures FindHelper(k, Insert(v, k, x)) == Some(x)
    ensures j != k ==> FindHelper(j, Insert(v, k, x)) == FindHelper(j, v)
  {
    FindHelperLooksUp(k, Insert(v, k, x));
    FindHelperLooksUp(j, Insert(v, k, x));
    FindHelperLooksUp(j, v);
  }

  /**
   * The subtree with the item at key k replaced by x, the node found by
   * the same key comparisons insert makes; shape, keys and colours stay.
   */
  ghost function WithItem<T>(v: Node<T>, k: int, x: T): Node<T> {
    if v.Nil? then Nil
    else if k < v.key then v.(left := WithItem(v.left, k, x))
    else if k > v.key then v.(right := WithItem(v.right, k, x))
    else v.(item := x)
  }

  /** Replacing an item changes no colour and no link. */
  lemma {:induction false} WithItemKeepsRules<T>(v: Node<T>, k: int, x: T, h: int)
    requires RB(v, h)
    ensures RB(WithItem(v, k, x), h)
  {
    if v.Node? {
      var hc := if v.color == Black then h - 1 else h;
      WithItemKeepsRules(v.left, k, x, hc);
      WithItemKeepsRules(v.right, k, x, hc);
    }
  }

  /** insertRestore leaves a subtree that already obeys the colour rules alone. */
  lemma RestoreIdle<T>(t: Node<T>, k: int, h: int)
    requires RB(t, h)
    ensures InsertRestore(t, k) == t
  {
    if t.Node? && t.color == Black {
      var hc := h - 1;
      assert RB(t.left, hc) && RB(t.right, hc);
      if IsRed(t.left) {
        assert IsBlack(t.left.left) && IsBlack(t.left.right);
      }
      if IsRed(t.right) {
        assert IsBlack(t.right.left) && IsBlack(t.right.right);
      }
    }
  }

  /**
   * Inserting a key the search finds in a tree that obeys the colour
   * rules only replaces that node's item: no node is created, recoloured
   * or moved.
   */
  lemma {:induction false} InsertExistingKey<T>(v: Node<T>, k: int, x: T, h: int)
    requires RB(v, h) && FindHelper(k, v).Some?
    ensures Insert(v, k, x) == WithItem(v, k, x)
  {
    if v.Node? && k != v.key {
      var hc := if v.color == Black then h - 1 else h;
      if k < v.key {
        InsertExistingKey(v.left, k, x, hc);
        WithItemKeepsRules(v.left, k, x, hc);
        RestoreIdle(v.(left := WithItem(v.left, k, x)), k, h);
      } else {
        InsertExistingKey(v.right, k, x, hc);
        WithItemKeepsRules(v.right, k, x, hc);
        RestoreIdle(v.(right := WithItem(v.right, k, x)), k, h);
      }
    }
  }
}
