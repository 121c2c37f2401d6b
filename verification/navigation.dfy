/**
 * The read-only queries of Tree.java: findHelper, minHelper, maxHelper,
 * nextHelper and prevHelper. Each descends by key comparison alone;
 * colours play no part.
 */
module Navigation {
  import opened Nodes

  /** findHelper: the item stored with key k in subtree v, or None. */
  function FindHelper<T>(k: int, v: Node<T>): (r: Option<T>)
    ensures r.Some? ==> k in Keys(v)
  {
    if v.Nil? then None
    else if k == v.key then Some(v.item)
    else if k < v.key then FindHelper(k, v.left)
    else FindHelper(k, v.right)
  }

  /** In an ordered subtree findHelper answers from the subtree's map. */
  lemma {:induction false} FindHelperLooksUp<T>(k: int, v: Node<T>)
    requires BST(v)
    ensures FindHelper(k, v) == if k in Contents(v) then Some(Contents(v)[k]) else None
  {
    if v.Node? && k != v.key {
      if k < v.key {
        FindHelperLooksUp(k, v.left);
        assert k !in Keys(v.right);
      } else {
        FindHelperLooksUp(k, v.right);
        assert k !in Keys(v.left);
      }
    }
  }

  /** minHelper: the key of the leftmost node, or None for the sentinel. */
  function MinHelper<T>(v: Node<T>): (r: Option<int>)
    ensures r.None? <==> v.Nil?
    ensures r.Some? ==> r.value in Keys(v)
  {
    if v.Nil? then None
    else if v.left.Nil? then Some(v.key)
    else MinHelper(v.left)
  }

  /** maxHelper: the key of the rightmost node, or None for the sentinel. */
  function MaxHelper<T>(v: Node<T>): (r: Option<int>)
    ensures r.None? <==> v.Nil?
    ensures r.Some? ==> r.value in Keys(v)
  {
    if v.Nil? then None
    else if v.right.Nil? then Some(v.key)
    else MaxHelper(v.right)
  }

  /** In an ordered subtree minHelper finds the least key. */
  lemma {:induction false} MinHelperIsLeast<T>(v: Node<T>)
    requires BST(v)
    ensures forall j :: j in Keys(v) ==> MinHelper(v).value <= j
  {
    if v.Node? && v.left.Node? {
      MinHelperIsLeast(v.left);
    }
  }

  /** In an ordered subtree maxHelper finds the greatest key. */
  lemma {:induction false} MaxHelperIsGreatest<T>(v: Node<T>)
    requires BST(v)
    ensures forall j :: j in Keys(v) ==> j <= MaxHelper(v).value
  {
    if v.Node? && v.right.Node? {
      MaxHelperIsGreatest(v.right);
    }
  }

  /** m is the least key of s above k; None when no key of s is above k. */
  ghost predicate IsSuccessor(s: set<int>, k: int, m: Option<int>) {
    && (m.None? <==> forall j :: j in s ==> j <= k)
    && (m.Some? ==> m.value in s && k < m.value && forall j :: j in s && k < j ==> m.value <= j)
  }

  /** m is the greatest key of s below k; None when no key of s is below k. */
  ghost predicate IsPredecessor(s: set<int>, k: int, m: Option<int>) {
    && (m.None? <==> forall j :: j in s ==> k <= j)
    && (m.Some? ==> m.value in s && m.value < k && forall j :: j in s && j < k ==> j <= m.value)
  }

  /** The key of the tracked ancestor p, as a set (empty for the sentinel). */
  ghost function Tracked<T>(p: Node<T>): set<int> {
    if p.Nil? then {} else {p.key}
  }

  /**
   * nextHelper: the successor of k in subtree v, where p is the nearest
   * ancestor at which the search went left (the sentinel when none).
   */
  function NextHelper<T>(k: int, v: Node<T>, p: Node<T>): (r: Option<int>)
    ensures r.Some? ==> r.value in Keys(v) + Tracked(p)
  {
    if v.Nil? then
      if p.Node? && k < p.key then Some(p.key) else None
    else if k < v.key then NextHelper(k, v.left, v)
    else if k > v.key then NextHelper(k, v.right, p)
    else if v.right.Node? then MinHelper(v.right)
    else if p.Node? then Some(p.key)
    else None
  }

  /**
   * In an ordered subtree whose tracked ancestor lies above all of its
   * keys, nextHelper finds the successor of k among the subtree's keys
   * and the ancestor's key; from the root (p the sentinel) that is the
   * successor of k in the tree, whether or not k is present.
   */
  lemma {:induction false} NextHelperIsSuccessor<T>(k: int, v: Node<T>, p: Node<T>)
    requires BST(v)
    requires p.Node? ==> forall j :: j in Keys(v) ==> j < p.key
    ensures IsSuccessor(Keys(v) + Tracked(p), k, NextHelper(k, v, p))
  {
    var m := NextHelper(k, v, p);
    if v.Node? {
      var a, b;
      if k < v.key {
        NextHelperIsSuccessor(k, v.left, v);
        a, b := Keys(v.left) + Tracked(v), Keys(v.right) + Tracked(p);
        assert m == NextHelper(k, v.left, v);
        assert IsSuccessor(a, k, m);
        assert v.key in a;
        forall j | j in b ensures NotBetweenAbove(k, m, j) {
          assert v.key < j;
        }
        SuccessorUnion(a, b, k, m);
      } else if k > v.key {
        NextHelperIsSuccessor(k, v.right, p);
        a, b := Keys(v.right) + Tracked(p), Keys(v.left) + {v.key};
        assert m == NextHelper(k, v.right, p);
        assert IsSuccessor(a, k, m);
        SuccessorUnion(a, b, k, m);
      } else if v.right.Node? {
        MinHelperIsLeast(v.right);
        a, b := Keys(v.right), Keys(v.left) + {v.key} + Tracked(p);
        assert m == MinHelper(v.right);
        assert m.value in a;
        assert IsSuccessor(a, k, m);
        forall j | j in b ensures NotBetweenAbove(k, m, j) {
          if j in Tracked(p) { assert m.value in Keys(v); }
        }
        SuccessorUnion(a, b, k, m);
      } else {
        a, b := Tracked(p), Keys(v);
        if p.Node? { assert v.key in Keys(v); }
        assert IsSuccessor(a, k, m);
        assert Keys(v.right) == {};
        forall j | j in b ensures NotBetweenAbove(k, m, j) {
          assert j in Keys(v.left) || j == v.key;
        }
        SuccessorUnion(a, b, k, m);
      }
      assert a + b == Keys(v) + Tracked(p);
    }
  }

  /** A successor in a stays one in a + b when b adds nothing above k below it. */
  lemma SuccessorUnion(a: set<int>, b: set<int>, k: int, m: Option<int>)
    requires IsSuccessor(a, k, m)
    requires forall j :: j in b ==> NotBetweenAbove(k, m, j)
    ensures IsSuccessor(a + b, k, m)
  {
  }

  /** j does not lie strictly between k and the candidate successor m. */
  ghost predicate NotBetweenAbove(k: int, m: Option<int>, j: int) {
    j <= k || (m.Some? && m.value <= j)
  }

  /**
   * prevHelper: the predecessor of k in subtree v, where p is the nearest
   * ancestor at which the search went right (the sentinel when none).
   */
  function PrevHelper<T>(k: int, v: Node<T>, p: Node<T>): (r: Option<int>)
    ensures r.Some? ==> r.value in Keys(v) + Tracked(p)
  {
    if v.Nil? then
      if p.Node? && k > p.key then Some(p.key) else None
    else if k < v.key then PrevHelper(k, v.left, p)
    else if k > v.key then PrevHelper(k, v.right, v)
    else if v.left.Node? then MaxHelper(v.left)
    else if p.Node? then Some(p.key)
    else None
  }

  /**
   * The mirror image of NextHelperIsSuccessor: with the tracked ancestor
   * below all keys of v, prevHelper finds the predecessor of k.
   */
  lemma {:induction false} PrevHelperIsPredecessor<T>(k: int, v: Node<T>, p: Node<T>)
    requires BST(v)
    requires p.Node? ==> forall j :: j in Keys(v) ==> p.key < j
    ensures IsPredecessor(Keys(v) + Tracked(p), k, PrevHelper(k, v, p))
  {
    var m := PrevHelper(k, v, p);
    if v.Node? {
      var a, b;
      if k > v.key {
        PrevHelperIsPredecessor(k, v.right, v);
        a, b := Keys(v.right) + Tracked(v), Keys(v.left) + Tracked(p);
        assert m == PrevHelper(k, v.right, v);
        assert IsPredecessor(a, k, m);
        assert v.key in a;
        forall j | j in b ensures NotBetweenBelow(k, m, j) {
          assert j < v.key;
        }
        PredecessorUnion(a, b, k, m);
      } else if k < v.key {
        PrevHelperIsPredecessor(k, v.left, p);
        a, b := Keys(v.left) + Tracked(p), Keys(v.right) + {v.key};
        assert m == PrevHelper(k, v.left, p);
        assert IsPredecessor(a, k, m);
        PredecessorUnion(a, b, k, m);
      } else if v.left.Node? {
        MaxHelperIsGreatest(v.left);
        a, b := Keys(v.left), Keys(v.right) + {v.key} + Tracked(p);
        assert m == MaxHelper(v.left);
        assert m.value in a;
        assert IsPredecessor(a, k, m);
        forall j | j in b ensures NotBetweenBelow(k, m, j) {
          if j in Tracked(p) { assert m.value in Keys(v); }
        }
        PredecessorUnion(a, b, k, m);
      } else {
        a, b := Tracked(p), Keys(v);
        if p.Node? { assert v.key in Keys(v); }
        assert IsPredecessor(a, k, m);
        assert Keys(v.left) == {};
        forall j | j in b ensures NotBetweenBelow(k, m, j) {
          assert j in Keys(v.right) || j == v.key;
        }
        PredecessorUnion(a, b, k, m);
      }
      assert a + b == Keys(v) + Tracked(p);
    }
  }

  /** A predecessor in a stays one in a + b when b adds nothing below k above it. */
  lemma PredecessorUnion(a: set<int>, b: set<int>, k: int, m: Option<int>)
    requires IsPredecessor(a, k, m)
    requires forall j :: j in b ==> NotBetweenBelow(k, m, j)
    ensures IsPredecessor(a + b, k, m)
  {
  }

  /** j does not lie strictly between the candidate predecessor m and k. */
  ghost predicate NotBetweenBelow(k: int, m: Option<int>, j: int) {
    k <= j || (m.Some? && j <= m.value)
  }
}
