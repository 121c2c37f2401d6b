/**
 * The node record of the red-black tree (Tree.java, class Node) and the
 * abstract views the proofs use: the keys, the key-to-item map and the
 * in-order sequence of a subtree, and binary-search-tree ordering.
 */
module Nodes {

  datatype Option<T> = None | Some(value: T)

  /** The colour bit of a node (Tree.java: RED = true, BLACK = false). */
  datatype Color = Red | Black

  /**
   * A subtree. The shared sentinel `nil` is the leaf `Nil`; every other
   * node carries its key, its item, its two children and its colour.
   */
  datatype Node<T> = Nil | Node(color: Color, key: int, item: T, left: Node<T>, right: Node<T>)

  /** isBlack: the sentinel is black. */
  predicate IsBlack<T>(v: Node<T>) {
    v.Nil? || v.color == Black
  }

  /** isRed: only a real node can be red. */
  predicate IsRed<T>(v: Node<T>) {
    v.Node? && v.color == Red
  }

  /** The left child; the sentinel's links lead back to the sentinel. */
  function Left<T>(v: Node<T>): Node<T> {
    if v.Nil? then Nil else v.left
  }

  /** The right child; the sentinel's links lead back to the sentinel. */
  function Right<T>(v: Node<T>): Node<T> {
    if v.Nil? then Nil else v.right
  }

  /** The keys stored in a subtree. */
  ghost function Keys<T>(v: Node<T>): set<int> {
    match v
    case Nil => {}
    case Node(_, k, _, l, r) => Keys(l) + Keys(r) + {k}
  }

  /**
   * The map from keys to items that a subtree represents. Where a key
   * occurs twice (never, in an ordered tree), the upper node wins.
   */
  ghost function Contents<T>(v: Node<T>): (m: map<int, T>)
    ensures m.Keys == Keys(v)
  {
    match v
    case Nil => map[]
    case Node(_, k, x, l, r) => (Contents(l) + Contents(r))[k := x]
  }

  /** The entries of a subtree in in-order (left, node, right). */
  ghost function Inorder<T>(v: Node<T>): seq<(int, T)> {
    match v
    case Nil => []
    case Node(_, k, x, l, r) => Inorder(l) + [(k, x)] + Inorder(r)
  }

  /**
   * Binary-search-tree ordering: every key of a left subtree is below
   * the node's key, every key of a right subtree above it.
   */
  ghost predicate BST<T>(v: Node<T>) {
    match v
    case Nil => true
    case Node(_, k, _, l, r) =>
      && BST(l) && BST(r)
      && (forall j :: j in Keys(l) ==> j < k)
      && (forall j :: j in Keys(r) ==> k < j)
  }

  /** The keys of an entry sequence, in order. */
  ghost function KeysOf<T>(s: seq<(int, T)>): (r: seq<int>)
    ensures |r| == |s| && forall i :: 0 <= i < |s| ==> r[i] == s[i].0
  {
    seq(|s|, i requires 0 <= i < |s| => s[i].0)
  }

  ghost predicate StrictlyIncreasing(s: seq<int>) {
    forall i, j :: 0 <= i < j < |s| ==> s[i] < s[j]
  }

  /**
   * The subtree with every colour bit set to black: what is left of a
   * subtree when its colours are ignored. Colours carry no content, so
   * the keys, the map, the in-order sequence, the ordering and the size
   * are those of the coloured subtree.
   */
  ghost function Uncolored<T>(v: Node<T>): (r: Node<T>)
    ensures Keys(r) == Keys(v) && Contents(r) == Contents(v)
    ensures Inorder(r) == Inorder(v) && Size(r) == Size(v)
    ensures BST(r) == BST(v)
  {
    match v
    case Nil => Nil
    case Node(_, k, x, l, r) => Node(Black, k, x, Uncolored(l), Uncolored(r))
  }

  /** size(Node): the number of non-sentinel nodes. */
  function Size<T>(v: Node<T>): nat {
    if v.Nil? then 0 else 1 + Size(v.left) + Size(v.right)
  }

  /** copy(Node): rebuilds every node with the same key, item and colour. */
  function Copy<T>(v: Node<T>): (r: Node<T>)
    ensures r == v
  {
    if v.Nil? then Nil else Node(v.color, v.key, v.item, Copy(v.left), Copy(v.right))
  }

  /** In an ordered tree the size is the number of distinct keys. */
  lemma {:induction false} SizeCountsKeys<T>(v: Node<T>)
    requires BST(v)
    ensures Size(v) == |Keys(v)|
  {
    if v.Node? {
      SizeCountsKeys(v.left);
      SizeCountsKeys(v.right);
      var l, r := Keys(v.left), Keys(v.right);
      assert l * r == {} by {
        forall j | j in l ensures j !in r { }
      }
      assert v.key !in l + r;
      assert |l + r| == |l| + |r|;
    }
  }

  /** The size is the length of the in-order sequence. */
  lemma {:induction false} SizeIsInorderLength<T>(v: Node<T>)
    ensures Size(v) == |Inorder(v)|
  {
    if v.Node? {
      SizeIsInorderLength(v.left);
      SizeIsInorderLength(v.right);
    }
  }

  /** Every key of the in-order sequence is a key of the subtree, and back. */
  lemma {:induction false} KeysOfInorder<T>(v: Node<T>)
    ensures forall i :: 0 <= i < |Inorder(v)| ==> Inorder(v)[i].0 in Keys(v)
    ensures forall j :: j in Keys(v) ==> exists i :: 0 <= i < |Inorder(v)| && Inorder(v)[i].0 == j
  {
    if v.Node? {
      KeysOfInorder(v.left);
      KeysOfInorder(v.right);
      var l, r := Inorder(v.left), Inorder(v.right);
      var s := Inorder(v);
      assert s == l + [(v.key, v.item)] + r;
      forall i | 0 <= i < |s| ensures s[i].0 in Keys(v) {
        if i < |l| { assert s[i] == l[i]; }
        else if i > |l| { assert s[i] == r[i - |l| - 1]; }
      }
      forall j | j in Keys(v) ensures exists i :: 0 <= i < |s| && s[i].0 == j {
        if j in Keys(v.left) {
          var i :| 0 <= i < |l| && l[i].0 == j;
          assert s[i] == l[i];
        } else if j in Keys(v.right) {
          var i :| 0 <= i < |r| && r[i].0 == j;
          assert s[|l| + 1 + i] == r[i];
        } else {
          assert s[|l|].0 == j;
        }
      }
    }
  }

  /** An ordered tree lists its keys in strictly increasing order. */
  lemma {:induction false} OrderedInorderIncreases<T>(v: Node<T>)
    requires BST(v)
    ensures StrictlyIncreasing(KeysOf(Inorder(v)))
  {
    if v.Node? {
      OrderedInorderIncreases(v.left);
      OrderedInorderIncreases(v.right);
      KeysOfInorder(v.left);
      KeysOfInorder(v.right);
      var l, r := Inorder(v.left), Inorder(v.right);
      var s := Inorder(v);
      assert s == l + [(v.key, v.item)] + r;
      var ks := KeysOf(s);
      forall i, j | 0 <= i < j < |ks| ensures ks[i] < ks[j] {
        if j < |l| {
          assert s[i] == l[i] && s[j] == l[j];
          assert KeysOf(l)[i] == l[i].0 && KeysOf(l)[j] == l[j].0;
        } else if i > |l| {
          assert s[i] == r[i - |l| - 1] && s[j] == r[j - |l| - 1];
          assert KeysOf(r)[i - |l| - 1] == s[i].0 && KeysOf(r)[j - |l| - 1] == s[j].0;
        } else {
          if i < |l| { assert s[i] == l[i]; assert s[i].0 in Keys(v.left); }
          if j > |l| { assert s[j] == r[j - |l| - 1]; assert s[j].0 in Keys(v.right); }
        }
      }
    }
  }

  /** A tree whose in-order keys strictly increase is ordered. */
  lemma {:induction false} IncreasingInorderOrdered<T>(v: Node<T>)
    requires StrictlyIncreasing(KeysOf(Inorder(v)))
    ensures BST(v)
  {
    if v.Node? {
      KeysOfInorder(v.left);
      KeysOfInorder(v.right);
      var l, r := Inorder(v.left), Inorder(v.right);
      var s := Inorder(v);
      assert s == l + [(v.key, v.item)] + r;
      var ks := KeysOf(s);
      assert StrictlyIncreasing(KeysOf(l)) by {
        forall i, j | 0 <= i < j < |l| ensures KeysOf(l)[i] < KeysOf(l)[j] {
          assert s[i] == l[i] && s[j] == l[j];
          assert ks[i] < ks[j];
        }
      }
      assert StrictlyIncreasing(KeysOf(r)) by {
        forall i, j | 0 <= i < j < |r| ensures KeysOf(r)[i] < KeysOf(r)[j] {
          assert s[|l| + 1 + i] == r[i] && s[|l| + 1 + j] == r[j];
          assert ks[|l| + 1 + i] < ks[|l| + 1 + j];
        }
      }
      IncreasingInorderOrdered(v.left);
      IncreasingInorderOrdered(v.right);
      forall j | j in Keys(v.left) ensures j < v.key {
        var i :| 0 <= i < |l| && l[i].0 == j;
        assert s[i] == l[i] && s[|l|].0 == v.key;
        assert ks[i] < ks[|l|];
      }
      forall j | j in Keys(v.right) ensures v.key < j {
        var i :| 0 <= i < |r| && r[i].0 == j;
        assert s[|l| + 1 + i] == r[i] && s[|l|].0 == v.key;
        assert ks[|l|] < ks[|l| + 1 + i];
      }
    }
  }

  /** In an ordered tree every in-order entry is what the map holds for its key. */
  lemma {:induction false} ContentsOfInorder<T>(v: Node<T>)
    requires BST(v)
    ensures forall i :: 0 <= i < |Inorder(v)| ==> Inorder(v)[i].0 in Contents(v) && Contents(v)[Inorder(v)[i].0] == Inorder(v)[i].1
  {
    if v.Node? {
      ContentsOfInorder(v.left);
      ContentsOfInorder(v.right);
      KeysOfInorder(v.left);
      KeysOfInorder(v.right);
      var l, r := Inorder(v.left), Inorder(v.right);
      var s := Inorder(v);
      assert s == l + [(v.key, v.item)] + r;
      forall i | 0 <= i < |s| ensures s[i].0 in Contents(v) && Contents(v)[s[i].0] == s[i].1 {
        if i < |l| {
          assert s[i] == l[i];
          assert l[i].0 in Keys(v.left) && l[i].0 < v.key;
          assert l[i].0 !in Keys(v.right);
        } else if i > |l| {
          assert s[i] == r[i - |l| - 1];
          assert r[i - |l| - 1].0 in Keys(v.right);
        }
      }
    }
  }

  /**
   * Two subtrees with the same in-order sequence hold the same keys, are
   * ordered or not together, and when ordered hold the same map.
   */
  lemma SameInorder<T>(a: Node<T>, b: Node<T>)
    requires Inorder(a) == Inorder(b)
    ensures Keys(a) == Keys(b)
    ensures BST(a) <==> BST(b)
    ensures BST(a) ==> Contents(a) == Contents(b)
  {
    SameInorderSameKeys(a, b);
    if BST(a) {
      OrderedInorderIncreases(a);
      IncreasingInorderOrdered(b);
      SameInorderSameMap(a, b);
    }
    if BST(b) {
      OrderedInorderIncreases(b);
      IncreasingInorderOrdered(a);
    }
  }

  lemma SameInorderSameKeys<T>(a: Node<T>, b: Node<T>)
    requires Inorder(a) == Inorder(b)
    ensures Keys(a) == Keys(b)
  {
    KeysOfInorder(a);
    KeysOfInorder(b);
    forall j | j in Keys(a) ensures j in Keys(b) {
      var i :| 0 <= i < |Inorder(a)| && Inorder(a)[i].0 == j;
    }
    forall j | j in Keys(b) ensures j in Keys(a) {
      var i :| 0 <= i < |Inorder(b)| && Inorder(b)[i].0 == j;
    }
  }

  lemma SameInorderSameMap<T>(a: Node<T>, b: Node<T>)
    requires Inorder(a) == Inorder(b) && Keys(a) == Keys(b) && BST(a) && BST(b)
    ensures Contents(a) == Contents(b)
  {
    KeysOfInorder(a);
    ContentsOfInorder(a);
    ContentsOfInorder(b);
    forall j | j in Contents(a) ensures Contents(a)[j] == Contents(b)[j] {
      var i :| 0 <= i < |Inorder(a)| && Inorder(a)[i].0 == j;
    }
  }
}
