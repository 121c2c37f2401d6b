/**
 * The public class Tree (Tree.java): a map from int keys to items, kept
 * as a red-black search tree reachable from the field `root`. Every
 * public operation keeps the class invariant Valid(): the tree is
 * ordered by key and obeys the red-black colour rules.
 */
module RedBlackTree {
  import opened Nodes
  import opened Primitives
  import opened RedBlack
  import opened Navigation
  import opened Insertion
  import opened Deletion

  class Tree<T> {
    /** The root of the tree; the sentinel when the tree is empty. */
    var root: Node<T>

    /** The class invariant: ordered by key and a valid red-black tree. */
    ghost predicate Valid()
      reads this
    {
      BST(root) && IsRedBlack(root)
    }

    /** Tree(): an empty tree. */
    constructor()
      ensures Valid() && root == Nil && Contents(root) == map[]
    {
      root := Nil;
    }

    /** find: the item stored with key k, or None when k is absent. */
    method Find(k: int) returns (r: Option<T>)
      requires Valid()
      ensures r == if k in Contents(root) then Some(Contents(root)[k]) else None
    {
      r := FindHelper(k, root);
      FindHelperLooksUp(k, root);
    }

    /** min: the least key, or None when the tree is empty. */
    method Min() returns (m: Option<int>)
      requires Valid()
      ensures m.None? <==> Keys(root) == {}
      ensures m.Some? ==> m.value in Keys(root) && forall j :: j in Keys(root) ==> m.value <= j
    {
      m := MinHelper(root);
      if m.Some? {
        MinHelperIsLeast(root);
      }
    }

    /** max: the greatest key, or None when the tree is empty. */
    method Max() returns (m: Option<int>)
      requires Valid()
      ensures m.None? <==> Keys(root) == {}
      ensures m.Some? ==> m.value in Keys(root) && forall j :: j in Keys(root) ==> j <= m.value
    {
      m := MaxHelper(root);
      if m.Some? {
        MaxHelperIsGreatest(root);
      }
    }

    /** next: the least key above k, whether or not k is present. */
    method Next(k: int) returns (m: Option<int>)
      requires Valid()
      ensures IsSuccessor(Keys(root), k, m)
    {
      m := NextHelper(k, root, Nil);
      NextHelperIsSuccessor(k, root, Nil);
      assert Keys(root) + Tracked<T>(Nil) == Keys(root);
    }

    /** prev: the greatest key below k, whether or not k is present. */
    method Prev(k: int) returns (m: Option<int>)
      requires Valid()
      ensures IsPredecessor(Keys(root), k, m)
    {
      m := PrevHelper(k, root, Nil);
      PrevHelperIsPredecessor(k, root, Nil);
      assert Keys(root) + Tracked<T>(Nil) == Keys(root);
    }

    /**
     * insert: stores x under k, replacing the item when k is present,
     * and forces the new root black.
     */
    method Insert(k: int, x: T)
      requires Valid()
      modifies this
      ensures Valid()
      ensures Contents(root) == old(Contents(root))[k := x]
      ensures root == Blacken(Insertion.Insert(old(root), k, x))
    {
      InsertKeepsRedBlack(root, k, x);
      root := Blacken(Insertion.Insert(root, k, x));
    }

    /**
     * delete: removes k and its item; when k is absent nothing changes.
     * The defect flag starts clear and the new root is forced black.
     */
    method Delete(k: int)
      requires Valid()
      modifies this
      ensures Valid()
      ensures Contents(root) == old(Contents(root)) - {k}
      ensures k !in old(Keys(root)) ==> root == old(root)
      ensures root == Blacken(Deletion.Delete(old(root), k).tree)
    {
      DeleteKeepsRedBlack(root, k);
      root := Blacken(Deletion.Delete(root, k).tree);
    }

    /** empty: whether the tree holds no key. */
    method IsEmpty() returns (b: bool)
      ensures b <==> Keys(root) == {}
    {
      b := root.Nil?;
    }

    /** size: the number of keys in the tree. */
    method Size() returns (n: nat)
      requires Valid()
      ensures n == |Keys(root)|
    {
      n := Nodes.Size(root);
      SizeCountsKeys(root);
    }

    /** clear: drops every node; the tree is empty afterwards. */
    method Clear()
      modifies this
      ensures Valid() && root == Nil && Contents(root) == map[]
    {
      root := Nil;
    }

    /** copy: a new tree with the same shape, keys, items and colours. */
    method Copy() returns (t: Tree<T>)
      ensures fresh(t) && t.root == root
    {
      t := new Tree();
      t.root := Nodes.Copy(root);
    }

    /**
     * valid(): counts the black nodes on the left spine, then checks that
     * the root is black and that every path meets that many black nodes
     * with no red node above a red child. Ordering is not checked.
     */
    method IsValid() returns (r: bool)
      ensures r <==> IsRedBlack(root)
    {
      var b := 0;
      var v := root;
      while v.Node?
        invariant b + LeftBlackHeight(v) == LeftBlackHeight(root)
        decreases v
      {
        b := b + (if IsBlack(v) then 1 else 0);
        v := v.left;
      }
      r := IsBlack(root) && ValidFrom(root, 0, b);
    }
  }
}
