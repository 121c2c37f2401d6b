/**
 * Deletion (Tree.java: delete(Node, int), deleteGeneral, deleteBasis and
 * deleteRestore). The Java code carries a static flag `defect` ("the
 * subtree just returned is one black node short") from each call to its
 * caller; here every helper returns it beside the new subtree root.
 */
module Deletion {
  import opened Nodes
  import opened Primitives
  import opened RedBlack
  import opened Navigation

  /** A rebuilt subtree and the `defect` flag that goes with it. */
  datatype Repaired<T> = Repaired(tree: Node<T>, defect: bool)

  /**
   * What deleteGeneral leaves: the rebuilt subtree, the flag, and the
   * entry (the subtree's leftmost) that it copies into the node whose key
   * is being deleted.
   */
  datatype Spliced<T> = Spliced(tree: Node<T>, defect: bool, key: int, item: T)

  /**
   * deleteBasis: splices out node v, which has at most the one child w.
   * The subtree is one black node short exactly when a black v is
   * replaced by a black w; a red w is recoloured black instead.
   */
  function DeleteBasis<T>(v: Node<T>, w: Node<T>): (r: Repaired<T>)
    ensures r.defect <==> IsBlack(v) && IsBlack(w)
    ensures Uncolored(r.tree) == Uncolored(w)
    ensures IsRed(v) ==> r.tree == w
    ensures IsBlack(v) ==> IsBlack(r.tree)
    ensures r.tree.Node? ==> r.tree.left == w.left && r.tree.right == w.right
  {
    if IsRed(v) then Repaired(w, false)
    else if IsBlack(w) then Repaired(w, true)
    else Repaired(Flip(w), false)
  }

  /**
   * deleteRestore: repairs node v after its child on side `fromLeft` was
   * rebuilt (the Java code tells the side by comparing that child with
   * v.left). With no defect nothing happens. Otherwise: a red child is
   * recoloured black (Case 0); a red sibling is rotated up and the repair
   * is redone one level down (Cases 1 and 5); a black sibling with black
   * children turns red and the defect moves up (Cases 2 and 6); a black
   * sibling with a red child is rotated up and the defect ends (Cases 3,
   * 4, 7 and 8). Only rotations and flips are used.
   */
  function DeleteRestore<T>(v: Node<T>, fromLeft: bool, defect: bool): (r: Repaired<T>)
    requires v.Node?
    ensures Inorder(r.tree) == Inorder(v) && Keys(r.tree) == Keys(v)
    ensures BST(r.tree) <==> BST(v)
    ensures BST(v) ==> Contents(r.tree) == Contents(v)
    ensures !defect ==> r == Repaired(v, false)
    decreases Size(v)
  {
    var r :=
      if !defect then Repaired(v, false)
      else if fromLeft then RestoreLeft(v)
      else RestoreRight(v);
    SameInorder(r.tree, v);
    r
  }

  /** deleteRestore when the shrunk child is v's left child (Cases 0 to 4). */
  function RestoreLeft<T>(v: Node<T>): (r: Repaired<T>)
    requires v.Node?
    ensures Inorder(r.tree) == Inorder(v)
    decreases Size(v), 1
  {
    var w, u := v.left, v.right;
    if IsRed(w) then                                                // Case 0
      Repaired(v.(left := Flip(w)), false)
    else if IsRed(u) then                                           // Case 1
      RedSiblingLeft(v)
    else if IsBlack(Left(u)) && IsBlack(Right(u)) then              // Case 2
      Repaired(v.(right := Flip(u)), true)
    else                                                            // Cases 3 and 4
      RedNephewLeft(v)
  }

  /**
   * Case 1: the sibling u is red. Rotating it above v gives the shrunk
   * child a black sibling; deleteRestore runs again one level down, and
   * a defect left there (Case 2 below) ends on the now red v.
   */
  function RedSiblingLeft<T>(v: Node<T>): (r: Repaired<T>)
    requires v.Node? && v.right.Node?
    ensures Inorder(r.tree) == Inorder(v)
    decreases Size(v), 0
  {
    var t := RotateLeft(FlipRight(v));
    assert t.left.Node? && Size(t.left) < Size(v);
    var inner := DeleteRestore(t.left, true, true);
    if inner.defect then Repaired(t.(left := Flip(inner.tree)), false)
    else Repaired(t.(left := inner.tree), false)
  }

  /**
   * Cases 3 and 4: the black sibling u has a red child. A red near child
   * is first rotated outwards (Case 3); one rotation at v then ends the
   * defect (Case 4).
   */
  function RedNephewLeft<T>(v: Node<T>): (r: Repaired<T>)
    requires v.Node? && v.right.Node?
    ensures Inorder(r.tree) == Inorder(v)
  {
    var u := v.right;
    var t := if IsRed(u.left) then v.(right := FlipRight(RotateRight(u))) else v;
    var t' := FlipLeft(RotateLeft(t));
    Repaired(t'.(right := Flip(t'.right)), false)
  }

  /** deleteRestore when the shrunk child is v's right child (Cases 0 and 5 to 8). */
  function RestoreRight<T>(v: Node<T>): (r: Repaired<T>)
    requires v.Node?
    ensures Inorder(r.tree) == Inorder(v)
    decreases Size(v), 1
  {
    var w, u := v.right, v.left;
    if IsRed(w) then                                                // Case 0
      Repaired(v.(right := Flip(w)), false)
    else if IsRed(u) then                                           // Case 5
      RedSiblingRight(v)
    else if IsBlack(Right(u)) && IsBlack(Left(u)) then              // Case 6
      Repaired(v.(left := Flip(u)), true)
    else                                                            // Cases 7 and 8
      RedNephewRight(v)
  }

  /** Case 5, the mirror image of Case 1. */
  function RedSiblingRight<T>(v: Node<T>): (r: Repaired<T>)
    requires v.Node? && v.left.Node?
    ensures Inorder(r.tree) == Inorder(v)
    decreases Size(v), 0
  {
    var t := RotateRight(FlipLeft(v));
    assert t.right.Node? && Size(t.right) < Size(v);
    var inner := DeleteRestore(t.right, false, true);
    if inner.defect then Repaired(t.(right := Flip(inner.tree)), false)
    else Repaired(t.(right := inner.tree), false)
  }

  /** Cases 7 and 8, the mirror image of Cases 3 and 4. */
  function RedNephewRight<T>(v: Node<T>): (r: Repaired<T>)
    requires v.Node? && v.left.Node?
    ensures Inorder(r.tree) == Inorder(v)
  {
    var u := v.left;
    var t := if IsRed(u.right) then v.(left := FlipLeft(RotateLeft(u))) else v;
    var t' := FlipRight(RotateRight(t));
    Repaired(t'.(left := Flip(t'.left)), false)
  }

  /**
   * deleteGeneral: removes the leftmost node of subtree w and returns its
   * entry, which is the least entry when w is ordered.
   */
  function DeleteGeneral<T>(w: Node<T>): (r: Spliced<T>)
    requires w.Node?
    ensures r.key in Keys(w) && Keys(r.tree) <= Keys(w)
    ensures BST(w) ==>
      && r.key in Contents(w) && Contents(w)[r.key] == r.item
      && BST(r.tree) && Contents(r.tree) == Contents(w) - {r.key}
      && (forall j :: j in Keys(r.tree) ==> r.key < j)
  {
    if w.left.Node? then
      var s := DeleteGeneral(w.left);
      LeftSpliced(w, s);
      var d := DeleteRestore(w.(left := s.tree), true, s.defect);
      Spliced(d.tree, d.defect, s.key, s.item)
    else
      var d := DeleteBasis(w, w.right);
      assert BST(w) ==> Contents(w.right) == Contents(w) - {w.key} by {
        if BST(w) { RemovedNode(w, w.right); }
      }
      Spliced(d.tree, d.defect, w.key, w.item)
  }

  /** The least entry spliced out of w's left subtree is the least entry of w. */
  lemma LeftSpliced<T>(w: Node<T>, s: Spliced<T>)
    requires w.Node? && s.key in Keys(w.left) && Keys(s.tree) <= Keys(w.left)
    requires BST(w.left) ==>
      && s.key in Contents(w.left) && Contents(w.left)[s.key] == s.item
      && BST(s.tree) && Contents(s.tree) == Contents(w.left) - {s.key}
      && (forall j :: j in Keys(s.tree) ==> s.key < j)
    ensures Keys(w.(left := s.tree)) <= Keys(w)
    ensures BST(w) ==>
      && s.key in Contents(w) && Contents(w)[s.key] == s.item
      && BST(w.(left := s.tree)) && Contents(w.(left := s.tree)) == Contents(w) - {s.key}
      && (forall j :: j in Keys(w.(left := s.tree)) ==> s.key < j)
  {
    var t := w.(left := s.tree);
    assert t == Node(w.color, w.key, w.item, s.tree, w.right);
    if BST(w) {
      assert s.key < w.key;
      assert s.key !in Keys(w.right);
      RemovedLeft(w, s.tree, s.key);
      forall j | j in Keys(t) ensures s.key < j {
        if j in Keys(w.right) { assert w.key < j; }
      }
    }
  }

  /**
   * delete(Node, int): removes key k from subtree v; when k is absent
   * nothing changes.
   */
  function Delete<T>(v: Node<T>, k: int): (r: Repaired<T>)
    ensures k !in Keys(v) ==> r == Repaired(v, false)
    ensures Keys(r.tree) <= Keys(v)
    ensures BST(v) ==> BST(r.tree) && Contents(r.tree) == Contents(v) - {k}
  {
    if v.Nil? then Repaired(Nil, false)
    else if k < v.key then
      var d := Delete(v.left, k);
      assert BST(v) ==> Contents(v.(left := d.tree)) == Contents(v) - {k} by {
        if BST(v) { RemovedLeft(v, d.tree, k); }
      }
      DeleteRestore(v.(left := d.tree), true, d.defect)
    else if k > v.key then
      var d := Delete(v.right, k);
      assert BST(v) ==> Contents(v.(right := d.tree)) == Contents(v) - {k} by {
        if BST(v) { RemovedRight(v, d.tree, k); }
      }
      DeleteRestore(v.(right := d.tree), false, d.defect)
    else if v.left.Nil? then
      assert BST(v) ==> Contents(v.right) == Contents(v) - {k} by {
        if BST(v) { RemovedNode(v, v.right); }
      }
      DeleteBasis(v, v.right)
    else if v.right.Nil? then
      assert BST(v) ==> Contents(v.left) == Contents(v) - {k} by {
        if BST(v) { RemovedNode(v, v.left); }
      }
      DeleteBasis(v, v.left)
    else
      var s := DeleteGeneral(v.right);
      var t := Node(v.color, s.key, s.item, v.left, s.tree);
      assert BST(v) ==> BST(t) && Contents(t) == Contents(v) - {k} by {
        if BST(v) { SuccessorMoved(v, s); }
      }
      DeleteRestore(t, false, s.defect)
  }

  /** Replacing the left child of an ordered node by that child without key k. */
  lemma RemovedLeft<T>(v: Node<T>, c: Node<T>, k: int)
    requires v.Node? && BST(v) && k < v.key && Contents(c) == Contents(v.left) - {k}
    ensures Contents(v.(left := c)) == Contents(v) - {k}
  {
    var L, R := Contents(v.left), Contents(v.right);
    var lhs, rhs := Contents(v.(left := c)), Contents(v) - {k};
    assert k !in R;
    assert lhs.Keys == rhs.Keys;
    forall j | j in lhs ensures lhs[j] == rhs[j] { }
  }

  /** Replacing the right child of an ordered node by that child without key k. */
  lemma RemovedRight<T>(v: Node<T>, c: Node<T>, k: int)
    requires v.Node? && BST(v) && v.key < k && Contents(c) == Contents(v.right) - {k}
    ensures Contents(v.(right := c)) == Contents(v) - {k}
  {
    var L, R := Contents(v.left), Contents(v.right);
    var lhs, rhs := Contents(v.(right := c)), Contents(v) - {k};
    assert k !in L;
    assert lhs.Keys == rhs.Keys;
    forall j | j in lhs ensures lhs[j] == rhs[j] {
      if j in R { assert j != k; }
    }
  }

  /** Replacing an ordered node that has at most one child c by c. */
  lemma RemovedNode<T>(v: Node<T>, c: Node<T>)
    requires v.Node? && BST(v)
    requires (v.left.Nil? && c == v.right) || (v.right.Nil? && c == v.left)
    ensures Contents(c) == Contents(v) - {v.key}
  {
    var rhs := Contents(v) - {v.key};
    assert v.key !in Keys(c);
    assert Contents(c).Keys == rhs.Keys;
    forall j | j in rhs ensures Contents(c)[j] == rhs[j] { }
  }

  /** Moving the least entry of the right subtree into the node being deleted. */
  lemma SuccessorMoved<T>(v: Node<T>, s: Spliced<T>)
    requires v.Node? && BST(v) && v.right.Node?
    requires s.key in Contents(v.right) && Contents(v.right)[s.key] == s.item
    requires BST(s.tree) && Contents(s.tree) == Contents(v.right) - {s.key}
    requires forall j :: j in Keys(s.tree) ==> s.key < j
    ensures BST(Node(v.color, s.key, s.item, v.left, s.tree))
    ensures Contents(Node(v.color, s.key, s.item, v.left, s.tree)) == Contents(v) - {v.key}
  {
    assert s.key in Keys(v.right);
    assert v.key < s.key;
    forall j | j in Keys(v.left) ensures j < s.key { }
    SuccessorContents(v, s);
  }

  /** The entries after the move: those of v without v's own. */
  lemma SuccessorContents<T>(v: Node<T>, s: Spliced<T>)
    requires v.Node? && BST(v)
    requires s.key in Contents(v.right) && Contents(v.right)[s.key] == s.item
    requires Contents(s.tree) == Contents(v.right) - {s.key}
    ensures Contents(Node(v.color, s.key, s.item, v.left, s.tree)) == Contents(v) - {v.key}
  {
    var L, R, R' := Contents(v.left), Contents(v.right), Contents(s.tree);
    assert v.key !in L && v.key !in R;
    var lhs := (L + R')[s.key := s.item];
    var rhs := ((L + R)[v.key := v.item]) - {v.key};
    assert lhs.Keys == rhs.Keys;
    forall j | j in lhs ensures lhs[j] == rhs[j] {
      if j != s.key && j in L { assert j !in R; }
    }
    assert lhs == rhs;
  }

  // ----- The colour rules -----

  /**
   * What a deletion helper promises about the subtree it returns, given
   * that it received one obeying the colour rules at black height h with
   * root `orig`: without a defect the rules hold at h and a black root
   * stays black; with a defect the black height is h - 1, the root keeps
   * its colour, and only a red root may have a red child.
   */
  ghost predicate DeleteOutcome<T>(orig: Node<T>, r: Repaired<T>, h: int) {
    if r.defect then h >= 1 && Relaxed(r.tree, h - 1) && (IsRed(r.tree) <==> IsRed(orig))
    else RB(r.tree, h) && (IsBlack(orig) ==> IsBlack(r.tree))
  }

  /**
   * The state deleteRestore expects at v: the child on side `fromLeft`
   * came back from a deletion, one black node short when `defect` is set
   * (and then black if v is red), and the other child is as it was.
   */
  ghost predicate AwaitingRepair<T>(v: Node<T>, fromLeft: bool, defect: bool, h: int) {
    && v.Node?
    && var hc := if v.color == Black then h - 1 else h;
       var w := if fromLeft then v.left else v.right;
       var s := if fromLeft then v.right else v.left;
       if defect then
         && hc >= 1 && Relaxed(w, hc - 1) && RB(s, hc)
         && (v.color == Red ==> IsBlack(w) && IsBlack(s))
       else RB(v, h)
  }

  /** deleteBasis keeps the colour rules with the defect it reports. */
  lemma DeleteBasisBalance<T>(v: Node<T>, w: Node<T>, h: int)
    requires v.Node? && RB(v, h)
    requires (v.left.Nil? && w == v.right) || (v.right.Nil? && w == v.left)
    ensures DeleteOutcome(v, DeleteBasis(v, w), h)
  {
    var hc := if v.color == Black then h - 1 else h;
    assert RB(v.left, hc) && RB(v.right, hc);
    if IsRed(w) {
      assert RB(w.left, 0) && RB(w.right, 0);
    }
  }

  /**
   * deleteRestore turns the state it expects into the outcome promised
   * for v's subtree.
   */
  lemma {:induction false} DeleteRestoreBalance<T>(v: Node<T>, fromLeft: bool, defect: bool, h: int)
    requires AwaitingRepair(v, fromLeft, defect, h)
    ensures DeleteOutcome(v, DeleteRestore(v, fromLeft, defect), h)
    decreases Size(v), 2
  {
    if defect {
      var hc := if v.color == Black then h - 1 else h;
      var w := if fromLeft then v.left else v.right;
      if IsRed(w) {
        assert RB(w.left, hc - 1) && RB(w.right, hc - 1);
      } else if fromLeft {
        RepairLeft(v, h);
      } else {
        RepairRight(v, h);
      }
    }
  }

  /** deleteRestore with a black, one-short left child: Cases 1 to 4. */
  lemma {:induction false} RepairLeft<T>(v: Node<T>, h: int)
    requires AwaitingRepair(v, true, true, h) && !IsRed(v.left)
    ensures DeleteOutcome(v, DeleteRestore(v, true, true), h)
    decreases Size(v), 1
  {
    var hc := if v.color == Black then h - 1 else h;
    var w, u := v.left, v.right;
    assert DeleteRestore(v, true, true) == RestoreLeft(v);
    if IsRed(u) {
      PushDownLeft(v, h);
    } else if IsBlack(Left(u)) && IsBlack(Right(u)) {
      RecolorSiblingLeft(v, h);
    } else {
      RotateAwayLeft(v, h);
    }
  }

  /**
   * Case 2: a black sibling with two black children turns red; v's
   * subtree is then one black short as a whole and the defect moves up.
   */
  lemma RecolorSiblingLeft<T>(v: Node<T>, h: int)
    requires AwaitingRepair(v, true, true, h) && !IsRed(v.left) && !IsRed(v.right)
    requires IsBlack(Left(v.right)) && IsBlack(Right(v.right))
    ensures DeleteOutcome(v, Repaired(v.(right := Flip(v.right)), true), h)
  {
    var hc := if v.color == Black then h - 1 else h;
    var w, u := v.left, v.right;
    assert RB(w, hc - 1) && RB(u, hc);
    assert RB(u.left, hc - 1) && RB(u.right, hc - 1);
    assert RB(Flip(u), hc - 1);
    assert v.(right := Flip(u)) == Node(v.color, v.key, v.item, w, Flip(u));
  }

  /**
   * Case 1: after the rotation the shrunk child sits under the red v with
   * a black sibling, where deleteRestore ends the defect or leaves it at
   * the red v, which absorbs it.
   */
  lemma {:induction false} PushDownLeft<T>(v: Node<T>, h: int)
    requires AwaitingRepair(v, true, true, h) && !IsRed(v.left) && IsRed(v.right)
    ensures DeleteOutcome(v, RedSiblingLeft(v), h)
    decreases Size(v), 0
  {
    var hc := h - 1;
    var w, u := v.left, v.right;
    assert v.color == Black;
    assert RB(u.left, hc) && RB(u.right, hc) && IsBlack(u.left) && IsBlack(u.right);
    var c := Node(Red, v.key, v.item, w, u.left);
    assert AwaitingRepair(c, true, true, hc);
    assert Size(c) < Size(v);
    DeleteRestoreBalance(c, true, true, hc);
    var inner := DeleteRestore(c, true, true);
    var top := if inner.defect then Flip(inner.tree) else inner.tree;
    if inner.defect {
      assert RB(inner.tree.left, hc - 1) && RB(inner.tree.right, hc - 1);
    }
    assert RB(top, hc);
    SiblingRotatedLeft(v);
    assert RB(Node(Black, u.key, u.item, top, u.right), h);
  }

  /**
   * The shape Case 1 leaves: the sibling on top, black, with the repaired
   * red v (flipped black if its defect reached it) as its left child.
   */
  lemma SiblingRotatedLeft<T>(v: Node<T>)
    requires v.Node? && v.color == Black && v.right.Node? && v.right.color == Red
    ensures var w, u := v.left, v.right;
      var inner := DeleteRestore(Node(Red, v.key, v.item, w, u.left), true, true);
      var top := if inner.defect then Flip(inner.tree) else inner.tree;
      RedSiblingLeft(v) == Repaired(Node(Black, u.key, u.item, top, u.right), false)
  {
    var w, u := v.left, v.right;
    var t := RotateLeft(FlipRight(v));
    assert t == Node(Black, u.key, u.item, Node(Red, v.key, v.item, w, u.left), u.right);
  }

  /** Cases 3 and 4: the black sibling has a red child; one or two rotations end the defect. */
  lemma RotateAwayLeft<T>(v: Node<T>, h: int)
    requires AwaitingRepair(v, true, true, h) && !IsRed(v.left)
    requires v.right.Node? && v.right.color == Black
    requires IsRed(v.right.left) || IsRed(v.right.right)
    ensures DeleteOutcome(v, RedNephewLeft(v), h)
  {
    var hc := if v.color == Black then h - 1 else h;
    assert hc >= 1 && Relaxed(v.left, hc - 1) && RB(v.right, hc);
    RelaxedBlack(v.left, hc - 1);
    if IsRed(v.right.left) {
      NearNephewBalanced(v.color, v.key, v.item, v.left, v.right.key, v.right.item, v.right.left, v.right.right, h);
      NearNephewLeft(v);
    } else {
      FarNephewBalanced(v.color, v.key, v.item, v.left, v.right.key, v.right.item, v.right.left, v.right.right, h);
      FarNephewLeft(v);
    }
  }

  /**
   * Case 3 as colours go: w one black short below v, black sibling u with
   * red near child y; the result is balanced at v's height with v's colour.
   */
  lemma NearNephewBalanced<T>(c: Color, k: int, x: T, w: Node<T>, uk: int, ux: T, y: Node<T>, z: Node<T>, h: int)
    requires var hc := if c == Black then h - 1 else h;
      && hc >= 1 && RB(w, hc - 1) && RB(Node(Black, uk, ux, y, z), hc) && IsRed(y)
    ensures RB(Node(c, y.key, y.item, Node(Black, k, x, w, y.left), Node(Black, uk, ux, y.right, z)), h)
  {
    var hc := if c == Black then h - 1 else h;
    assert RB(y, hc - 1) && RB(z, hc - 1);
    assert RB(y.left, hc - 1) && RB(y.right, hc - 1);
  }

  /**
   * Case 4 as colours go: w one black short below v, black sibling u with
   * red far child z; the result is balanced at v's height with v's colour.
   */
  lemma FarNephewBalanced<T>(c: Color, k: int, x: T, w: Node<T>, uk: int, ux: T, y: Node<T>, z: Node<T>, h: int)
    requires var hc := if c == Black then h - 1 else h;
      && hc >= 1 && RB(w, hc - 1) && RB(Node(Black, uk, ux, y, z), hc) && IsRed(z)
    ensures RB(Node(c, uk, ux, Node(Black, k, x, w, y), Flip(z)), h)
  {
    var hc := if c == Black then h - 1 else h;
    assert RB(y, hc - 1) && RB(z, hc - 1);
    assert RB(z.left, hc - 1) && RB(z.right, hc - 1);
  }

  /** The shape Case 3 leaves. */
  lemma NearNephewLeft<T>(v: Node<T>)
    requires v.Node? && !IsRed(v.left) && v.right.Node? && v.right.color == Black
    requires IsRed(v.right.left)
    ensures var w, u, y := v.left, v.right, v.right.left;
      RedNephewLeft(v) == Repaired(Node(v.color, y.key, y.item, Node(Black, v.key, v.item, w, y.left),
                                      Node(Black, u.key, u.item, y.right, u.right)), false)
  {
    var w, u, y := v.left, v.right, v.right.left;
    var a := RotateRight(u);
    assert a == Node(Red, y.key, y.item, y.left, Node(Black, u.key, u.item, y.right, u.right));
    var b := FlipRight(a);
    assert b == Node(Black, y.key, y.item, y.left, Node(Red, u.key, u.item, y.right, u.right));
    var c := RotateLeft(v.(right := b));
    assert c == Node(Black, y.key, y.item, Node(v.color, v.key, v.item, w, y.left),
                     Node(Red, u.key, u.item, y.right, u.right));
  }

  /** The shape Case 4 leaves. */
  lemma FarNephewLeft<T>(v: Node<T>)
    requires v.Node? && !IsRed(v.left) && v.right.Node? && v.right.color == Black
    requires !IsRed(v.right.left) && IsRed(v.right.right)
    ensures var w, u := v.left, v.right;
      RedNephewLeft(v) == Repaired(Node(v.color, u.key, u.item, Node(Black, v.key, v.item, w, u.left), Flip(u.right)), false)
  {
    var w, u := v.left, v.right;
    var c := RotateLeft(v);
    assert c == Node(Black, u.key, u.item, Node(v.color, v.key, v.item, w, u.left), u.right);
  }

  /** The mirror image of RepairLeft: Cases 5 to 8. */
  lemma {:induction false} RepairRight<T>(v: Node<T>, h: int)
    requires AwaitingRepair(v, false, true, h) && !IsRed(v.right)
    ensures DeleteOutcome(v, DeleteRestore(v, false, true), h)
    decreases Size(v), 1
  {
    var hc := if v.color == Black then h - 1 else h;
    var w, u := v.right, v.left;
    assert DeleteRestore(v, false, true) == RestoreRight(v);
    if IsRed(u) {
      PushDownRight(v, h);
    } else if IsBlack(Right(u)) && IsBlack(Left(u)) {
      RecolorSiblingRight(v, h);
    } else {
      RotateAwayRight(v, h);
    }
  }

  /** Case 6, the mirror image of RecolorSiblingLeft. */
  lemma RecolorSiblingRight<T>(v: Node<T>, h: int)
    requires AwaitingRepair(v, false, true, h) && !IsRed(v.right) && !IsRed(v.left)
    requires IsBlack(Right(v.left)) && IsBlack(Left(v.left))
    ensures DeleteOutcome(v, Repaired(v.(left := Flip(v.left)), true), h)
  {
    var hc := if v.color == Black then h - 1 else h;
    var w, u := v.right, v.left;
    assert RB(w, hc - 1) && RB(u, hc);
    assert RB(u.left, hc - 1) && RB(u.right, hc - 1);
    assert RB(Flip(u), hc - 1);
    assert v.(left := Flip(u)) == Node(v.color, v.key, v.item, Flip(u), w);
  }

  /** Case 5, the mirror image of PushDownLeft. */
  lemma {:induction false} PushDownRight<T>(v: Node<T>, h: int)
    requires AwaitingRepair(v, false, true, h) && !IsRed(v.right) && IsRed(v.left)
    ensures DeleteOutcome(v, RedSiblingRight(v), h)
    decreases Size(v), 0
  {
    var hc := h - 1;
    var w, u := v.right, v.left;
    assert v.color == Black;
    assert RB(u.left, hc) && RB(u.right, hc) && IsBlack(u.left) && IsBlack(u.right);
    var c := Node(Red, v.key, v.item, u.right, w);
    assert AwaitingRepair(c, false, true, hc);
    assert Size(c) < Size(v);
    DeleteRestoreBalance(c, false, true, hc);
    var inner := DeleteRestore(c, false, true);
    var top := if inner.defect then Flip(inner.tree) else inner.tree;
    if inner.defect {
      assert RB(inner.tree.left, hc - 1) && RB(inner.tree.right, hc - 1);
    }
    assert RB(top, hc);
    SiblingRotatedRight(v);
    assert RB(Node(Black, u.key, u.item, u.left, top), h);
  }

  /** The shape Case 5 leaves, the mirror image of SiblingRotatedLeft. */
  lemma SiblingRotatedRight<T>(v: Node<T>)
    requires v.Node? && v.color == Black && v.left.Node? && v.left.color == Red
    ensures var w, u := v.right, v.left;
      var inner := DeleteRestore(Node(Red, v.key, v.item, u.right, w), false, true);
      var top := if inner.defect then Flip(inner.tree) else inner.tree;
      RedSiblingRight(v) == Repaired(Node(Black, u.key, u.item, u.left, top), false)
  {
    var w, u := v.right, v.left;
    var t := RotateRight(FlipLeft(v));
    assert t == Node(Black, u.key, u.item, u.left, Node(Red, v.key, v.item, u.right, w));
  }

  /** Cases 7 and 8, the mirror image of RotateAwayLeft. */
  lemma RotateAwayRight<T>(v: Node<T>, h: int)
    requires AwaitingRepair(v, false, true, h) && !IsRed(v.right)
    requires v.left.Node? && v.left.color == Black
    requires IsRed(v.left.left) || IsRed(v.left.right)
    ensures DeleteOutcome(v, RedNephewRight(v), h)
  {
    var hc := if v.color == Black then h - 1 else h;
    assert hc >= 1 && Relaxed(v.right, hc - 1) && RB(v.left, hc);
    RelaxedBlack(v.right, hc - 1);
    if IsRed(v.left.right) {
      NearNephewBalancedMirror(v.color, v.key, v.item, v.right, v.left.key, v.left.item, v.left.left, v.left.right, h);
      NearNephewRight(v);
    } else {
      FarNephewBalancedMirror(v.color, v.key, v.item, v.right, v.left.key, v.left.item, v.left.left, v.left.right, h);
      FarNephewRight(v);
    }
  }

  /** Case 7 as colours go, the mirror image of NearNephewBalanced. */
  lemma NearNephewBalancedMirror<T>(c: Color, k: int, x: T, w: Node<T>, uk: int, ux: T, z: Node<T>, y: Node<T>, h: int)
    requires var hc := if c == Black then h - 1 else h;
      && hc >= 1 && RB(w, hc - 1) && RB(Node(Black, uk, ux, z, y), hc) && IsRed(y)
    ensures RB(Node(c, y.key, y.item, Node(Black, uk, ux, z, y.left), Node(Black, k, x, y.right, w)), h)
  {
    var hc := if c == Black then h - 1 else h;
    assert RB(y, hc - 1) && RB(z, hc - 1);
    assert RB(y.left, hc - 1) && RB(y.right, hc - 1);
  }

  /** Case 8 as colours go, the mirror image of FarNephewBalanced. */
  lemma FarNephewBalancedMirror<T>(c: Color, k: int, x: T, w: Node<T>, uk: int, ux: T, z: Node<T>, y: Node<T>, h: int)
    requires var hc := if c == Black then h - 1 else h;
      && hc >= 1 && RB(w, hc - 1) && RB(Node(Black, uk, ux, z, y), hc) && IsRed(z)
    ensures RB(Node(c, uk, ux, Flip(z), Node(Black, k, x, y, w)), h)
  {
    var hc := if c == Black then h - 1 else h;
    assert RB(y, hc - 1) && RB(z, hc - 1);
    assert RB(z.left, hc - 1) && RB(z.right, hc - 1);
  }

  /** The shape Case 7 leaves. */
  lemma NearNephewRight<T>(v: Node<T>)
    requires v.Node? && !IsRed(v.right) && v.left.Node? && v.left.color == Black
    requires IsRed(v.left.right)
    ensures var w, u, y := v.right, v.left, v.left.right;
      RedNephewRight(v) == Repaired(Node(v.color, y.key, y.item, Node(Black, u.key, u.item, u.left, y.left),
                                       Node(Black, v.key, v.item, y.right, w)), false)
  {
    var w, u, y := v.right, v.left, v.left.right;
    var a := RotateLeft(u);
    assert a == Node(Red, y.key, y.item, Node(Black, u.key, u.item, u.left, y.left), y.right);
    var b := FlipLeft(a);
    assert b == Node(Black, y.key, y.item, Node(Red, u.key, u.item, u.left, y.left), y.right);
    var c := RotateRight(v.(left := b));
    assert c == Node(Black, y.key, y.item, Node(Red, u.key, u.item, u.left, y.left),
                     Node(v.color, v.key, v.item, y.right, w));
  }

  /** The shape Case 8 leaves. */
  lemma FarNephewRight<T>(v: Node<T>)
    requires v.Node? && !IsRed(v.right) && v.left.Node? && v.left.color == Black
    requires !IsRed(v.left.right) && IsRed(v.left.left)
    ensures var w, u := v.right, v.left;
      RedNephewRight(v) == Repaired(Node(v.color, u.key, u.item, Flip(u.left), Node(Black, v.key, v.item, u.right, w)), false)
  {
    var w, u := v.right, v.left;
    var c := RotateRight(v);
    assert c == Node(Black, u.key, u.item, u.left, Node(v.color, v.key, v.item, u.right, w));
  }

  /**
   * A child that came back from a deletion with the promised outcome,
   * hung under a node t of v's colour in place of v's child, leaves t in
   * the state deleteRestore expects.
   */
  lemma Reattached<T>(v: Node<T>, t: Node<T>, fromLeft: bool, defect: bool, h: int)
    requires v.Node? && t.Node? && RB(v, h) && t.color == v.color
    requires var hc := if v.color == Black then h - 1 else h;
      if fromLeft then t.right == v.right && DeleteOutcome(v.left, Repaired(t.left, defect), hc)
      else t.left == v.left && DeleteOutcome(v.right, Repaired(t.right, defect), hc)
    ensures AwaitingRepair(t, fromLeft, defect, h)
  {
  }

  /** deleteGeneral keeps the colour rules with the defect it reports. */
  lemma {:induction false} DeleteGeneralBalance<T>(w: Node<T>, h: int)
    requires w.Node? && RB(w, h)
    ensures var s := DeleteGeneral(w); DeleteOutcome(w, Repaired(s.tree, s.defect), h)
  {
    if w.left.Node? {
      var hc := if w.color == Black then h - 1 else h;
      DeleteGeneralBalance(w.left, hc);
      var s := DeleteGeneral(w.left);
      Reattached(w, w.(left := s.tree), true, s.defect, h);
      DeleteRestoreBalance(w.(left := s.tree), true, s.defect, h);
    } else {
      DeleteBasisBalance(w, w.right, h);
    }
  }

  /**
   * Deletion from a subtree that obeys the colour rules at black height h
   * delivers the outcome its parent's deleteRestore expects.
   */
  lemma {:induction false} DeleteBalance<T>(v: Node<T>, k: int, h: int)
    requires RB(v, h)
    ensures DeleteOutcome(v, Delete(v, k), h)
  {
    if v.Node? {
      var hc := if v.color == Black then h - 1 else h;
      if k < v.key {
        DeleteBalance(v.left, k, hc);
        var d := Delete(v.left, k);
        Reattached(v, v.(left := d.tree), true, d.defect, h);
        DeleteRestoreBalance(v.(left := d.tree), true, d.defect, h);
      } else if k > v.key {
        DeleteBalance(v.right, k, hc);
        var d := Delete(v.right, k);
        Reattached(v, v.(right := d.tree), false, d.defect, h);
        DeleteRestoreBalance(v.(right := d.tree), false, d.defect, h);
      } else if v.left.Nil? {
        DeleteBasisBalance(v, v.right, h);
      } else if v.right.Nil? {
        DeleteBasisBalance(v, v.left, h);
      } else {
        DeleteGeneralBalance(v.right, hc);
        var s := DeleteGeneral(v.right);
        var t := Node(v.color, s.key, s.item, v.left, s.tree);
        Reattached(v, t, false, s.defect, h);
        DeleteRestoreBalance(t, false, s.defect, h);
      }
    }
  }

  /**
   * The public delete: deleting and then forcing the root black keeps a
   * valid red-black tree valid.
   */
  lemma DeleteKeepsRedBlack<T>(v: Node<T>, k: int)
    requires IsRedBlack(v)
    ensures IsRedBlack(Blacken(Delete(v, k).tree))
  {
    var h := LeftBlackHeight(v);
    DeleteBalance(v, k, h);
    var d := Delete(v, k);
    if d.defect {
      assert IsBlack(d.tree);
      assert RB(d.tree, h - 1);
      BlackenKeepsRules(d.tree, h - 1);
    } else {
      BlackenKeepsRules(d.tree, h);
    }
  }

  /**
   * After deleting k from an ordered tree, a search for k finds nothing
   * and a search for any other key finds what it found before.
   */
  lemma FindAfterDelete<T>(v: Node<T>, k: int, j: int)
    requires BST(v)
    ensures FindHelper(k, Delete(v, k).tree) == None
    ensures j != k ==> FindHelper(j, Delete(v, k).tree) == FindHelper(j, v)
  {
    FindHelperLooksUp(k, Delete(v, k).tree);
    FindHelperLooksUp(j, Delete(v, k).tree);
    FindHelperLooksUp(j, v);
  }
}
