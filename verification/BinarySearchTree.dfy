/** A binary search tree of nodes on the heap, changed in place. */
module BinarySearchTree {
  import opened Options
  import opened SearchTrees

  class TreeNode<V> {
    var key: int
    var value: V
    var left: TreeNode?<V>
    var right: TreeNode?<V>
    var size: int
    ghost var Repr: set<TreeNode<V>>
    ghost var shape: Tree<V>

    /** The nodes below are different, and `shape` is the tree they form. */
    ghost predicate Valid()
      reads this, Repr
      decreases Repr
    {
      && this in Repr
      && (left != null ==> left in Repr && left.Repr < Repr && this !in left.Repr && left.Valid())
      && (right != null ==> right in Repr && right.Repr < Repr && this !in right.Repr && right.Valid())
      && (left != null && right != null ==> left.Repr !! right.Repr)
      && shape == Node(ShapeOf(left), key, value, ShapeOf(right), size)
    }

    constructor (k: int, v: V)
      ensures Valid() && Repr == {this} && shape == Node(Leaf, k, v, Leaf, 1)
    {
      key, value, left, right, size := k, v, null, null, 1;
      Repr := {this};
      shape := Node(Leaf, k, v, Leaf, 1);
    }
  }

  ghost function ShapeOf<V>(n: TreeNode?<V>): Tree<V>
    reads n
  {
    if n == null then Leaf else n.shape
  }

  ghost function ReprOf<V>(n: TreeNode?<V>): set<TreeNode<V>>
    reads n
  {
    if n == null then {} else n.Repr
  }

  ghost predicate ValidTree<V>(n: TreeNode?<V>)
    reads n, ReprOf(n)
  {
    n != null ==> n.Valid()
  }

  lemma Parts<V>(n: TreeNode<V>)
    requires n.Valid()
    ensures n in n.Repr && n.shape == Node(ShapeOf(n.left), n.key, n.value, ShapeOf(n.right), n.size)
    ensures ValidTree(n.left) && ValidTree(n.right) && ReprOf(n.left) !! ReprOf(n.right)
    ensures n !in ReprOf(n.left) && n !in ReprOf(n.right)
    ensures ReprOf(n.left) < n.Repr && ReprOf(n.right) < n.Repr
    ensures n.left != null ==> n.left in n.left.Repr && n.left.shape.Node?
    ensures n.right != null ==> n.right in n.right.Repr && n.right.shape.Node?
  {
  }

  class BST<V> {
    var root: TreeNode?<V>

    ghost predicate Valid()
      reads this, root, ReprOf(root)
    {
      ValidTree(root) && Sound(ShapeOf(root))
    }

    constructor ()
      ensures Valid() && ShapeOf(root) == Leaf && Content(ShapeOf(root)) == map[]
    {
      root := null;
    }

    static method GetSize(node: TreeNode?<V>) returns (size: int)
      requires ValidTree(node)
      ensures size == SearchTrees.GetSize(ShapeOf(node))
    {
      size := if node == null then 0 else node.size;
    }

    /** Sets the size of a node whose children are in order. */
    static method UpdateSize(node: TreeNode<V>)
      requires node in node.Repr && ValidTree(node.left) && ValidTree(node.right)
      requires node !in ReprOf(node.left) && node !in ReprOf(node.right) && ReprOf(node.left) !! ReprOf(node.right)
      modifies node
      ensures node.Valid() && node.left == old(node.left) && node.right == old(node.right)
      ensures node.Repr == {node} + ReprOf(node.left) + ReprOf(node.right)
      ensures node.shape ==
              SearchTrees.UpdateSize(Node(ShapeOf(node.left), old(node.key), old(node.value), ShapeOf(node.right), 0))
    {
      var l := GetSize(node.left);
      var r := GetSize(node.right);
      node.size := l + r + 1;
      node.Repr := {node} + ReprOf(node.left) + ReprOf(node.right);
      node.shape := Node(ShapeOf(node.left), node.key, node.value, ShapeOf(node.right), node.size);
    }

    /** Gives a node a new left child and brings its size up to date. */
    static method AttachLeft(node: TreeNode<V>, l: TreeNode?<V>)
      requires ValidTree(l) && ValidTree(node.right) && node in node.Repr
      requires node !in ReprOf(l) && node !in ReprOf(node.right) && ReprOf(l) !! ReprOf(node.right)
      modifies node
      ensures node.Valid() && node.Repr == {node} + ReprOf(l) + ReprOf(old(node.right))
      ensures node.shape ==
              SearchTrees.UpdateSize(Node(ShapeOf(l), old(node.key), old(node.value), ShapeOf(old(node.right)), 0))
    {
      node.left := l;
      UpdateSize(node);
    }

    static method AttachRight(node: TreeNode<V>, r: TreeNode?<V>)
      requires ValidTree(r) && ValidTree(node.left) && node in node.Repr
      requires node !in ReprOf(r) && node !in ReprOf(node.left) && ReprOf(node.left) !! ReprOf(r)
      modifies node
      ensures node.Valid() && node.Repr == {node} + ReprOf(old(node.left)) + ReprOf(r)
      ensures node.shape ==
              SearchTrees.UpdateSize(Node(ShapeOf(old(node.left)), old(node.key), old(node.value), ShapeOf(r), 0))
    {
      node.right := r;
      UpdateSize(node);
    }

    static method SetValue(node: TreeNode<V>, value: V)
      requires node.Valid()
      modifies node
      ensures node.Valid() && node.Repr <= old(node.Repr)
      ensures node.shape == SearchTrees.UpdateSize(old(node.shape).(value := value))
    {
      node.value := value;
      UpdateSize(node);
    }

    static method PutNode(node: TreeNode?<V>, key: int, value: V) returns (r: TreeNode<V>)
      requires ValidTree(node)
      modifies ReprOf(node)
      ensures r.Valid() && r.shape == SearchTrees.Put(old(ShapeOf(node)), key, value)
      ensures fresh(r.Repr - old(ReprOf(node))) && (node != null ==> r == node)
      decreases ReprOf(node)
    {
      hide TreeNode.Valid;
      if node == null {
        r := new TreeNode(key, value);
        return;
      }
      Parts(node);
      if key < node.key {
        var l := PutNode(node.left, key, value);
        AttachLeft(node, l);
      } else if key > node.key {
        var x := PutNode(node.right, key, value);
        AttachRight(node, x);
      } else {
        SetValue(node, value);
      }
      r := node;
    }

    static method GetNode(node: TreeNode?<V>, key: int) returns (v: Option<V>)
      requires ValidTree(node)
      ensures v == SearchTrees.Get(ShapeOf(node), key)
      decreases ReprOf(node)
    {
      if node == null {
        return None;
      }
      if key < node.key {
        v := GetNode(node.left, key);
      } else if key > node.key {
        v := GetNode(node.right, key);
      } else {
        v := Some(node.value);
      }
    }

    static method FindMin(node: TreeNode<V>) returns (m: TreeNode<V>)
      requires node.Valid()
      ensures m in node.Repr && m.key == SearchTrees.FindMin(node.shape).key
              && m.value == SearchTrees.FindMin(node.shape).value
      decreases node.Repr
    {
      if node.left == null {
        return node;
      }
      m := FindMin(node.left);
    }

    static method RemoveMin(node: TreeNode<V>) returns (r: TreeNode?<V>)
      requires node.Valid()
      modifies node.Repr
      ensures ValidTree(r) && ShapeOf(r) == SearchTrees.RemoveMin(old(node.shape))
      ensures ReprOf(r) <= old(node.Repr)
      decreases node.Repr
    {
      hide TreeNode.Valid;
      Parts(node);
      if node.left == null {
        return node.right;
      }
      var l := RemoveMin(node.left);
      AttachLeft(node, l);
      r := node;
    }

    static method RemoveNode(node: TreeNode?<V>, key: int) returns (r: TreeNode?<V>)
      requires ValidTree(node)
      modifies ReprOf(node)
      ensures ValidTree(r) && ShapeOf(r) == SearchTrees.Remove(old(ShapeOf(node)), key)
      ensures ReprOf(r) <= old(ReprOf(node))
      decreases ReprOf(node)
    {
      hide TreeNode.Valid;
      if node == null {
        return null;
      }
      Parts(node);
      if key < node.key {
        var l := RemoveNode(node.left, key);
        AttachLeft(node, l);
      } else if key > node.key {
        var x := RemoveNode(node.right, key);
        AttachRight(node, x);
      } else {
        if node.left == null {
          return node.right;
        }
        if node.right == null {
          return node.left;
        }
        Replace(node);
      }
      r := node;
    }

    /** The successor of a node takes its place. */
    static method Replace(node: TreeNode<V>)
      requires node.Valid() && node.left != null && node.right != null
      modifies node.Repr
      ensures node.Valid() && node.shape == SearchTrees.Remove(old(node.shape), old(node.key))
      ensures node.Repr <= old(node.Repr)
    {
      hide TreeNode.Valid;
      Parts(node);
      var successor := FindMin(node.right);
      var k, v := successor.key, successor.value;
      var x := RemoveMin(node.right);
      node.key := k;
      node.value := v;
      AttachRight(node, x);
    }

    method Put(key: int, value: V)
      requires Valid()
      modifies this, ReprOf(root)
      ensures Valid() && Content(ShapeOf(root)) == old(Content(ShapeOf(root)))[key := value]
    {
      PutContent(ShapeOf(root), key, value);
      root := PutNode(root, key, value);
    }

    method Remove(key: int)
      requires Valid()
      modifies this, ReprOf(root)
      ensures Valid() && Content(ShapeOf(root)) == old(Content(ShapeOf(root))) - {key}
    {
      RemoveContent(ShapeOf(root), key);
      root := RemoveNode(root, key);
    }

    /** `None` where the program throws. */
    method Get(key: int) returns (v: Option<V>)
      requires Valid()
      ensures var m := Content(ShapeOf(root)); v == if key in m then Some(m[key]) else None
    {
      GetContent(ShapeOf(root), key);
      v := GetNode(root, key);
    }

    /** Appends the keys below a node in order. */
    static method InorderNode(node: TreeNode?<V>, keyList: seq<int>) returns (keys: seq<int>)
      requires ValidTree(node)
      ensures keys == keyList + Inorder(ShapeOf(node))
      decreases ReprOf(node)
    {
      if node == null {
        return keyList;
      }
      keys := InorderNode(node.left, keyList);
      keys := keys + [node.key];
      keys := InorderNode(node.right, keys);
    }

    static method SelectNode(node: TreeNode?<V>, k: int) returns (key: Option<int>)
      requires ValidTree(node)
      ensures key == SearchTrees.Select(ShapeOf(node), k)
      decreases ReprOf(node)
    {
      if node == null {
        return None;
      }
      var leftSize := GetSize(node.left);
      if leftSize > k {
        key := SelectNode(node.left, k);
      } else if leftSize == k {
        key := Some(node.key);
      } else {
        key := SelectNode(node.right, k - leftSize - 1);
      }
    }

    static method RankNode(node: TreeNode?<V>, key: int) returns (rank: int)
      requires ValidTree(node)
      ensures rank == SearchTrees.Rank(ShapeOf(node), key)
      decreases ReprOf(node)
    {
      if node == null {
        return 0;
      }
      if key < node.key {
        rank := RankNode(node.left, key);
      } else if key > node.key {
        var l := GetSize(node.left);
        var r := RankNode(node.right, key);
        rank := l + 1 + r;
      } else {
        rank := GetSize(node.left);
      }
    }

    method Keys() returns (keys: seq<int>)
      requires Valid()
      ensures Increasing(keys) && forall x :: x in keys <==> x in Content(ShapeOf(root))
    {
      InorderKeys(ShapeOf(root));
      keys := InorderNode(root, []);
    }

    /** The key at a place in the order; `None` where the program throws. */
    method SelectKey(k: int) returns (key: Option<int>)
      requires Valid()
      ensures key == if 0 <= k < |Inorder(ShapeOf(root))| then Some(Inorder(ShapeOf(root))[k]) else None
    {
      SelectPlace(ShapeOf(root), k);
      key := SelectNode(root, k);
    }

    /** The number of smaller keys. */
    method RankOf(key: int) returns (rank: int)
      requires Valid()
      ensures 0 <= rank <= |Inorder(ShapeOf(root))|
      ensures forall i :: 0 <= i < |Inorder(ShapeOf(root))| ==> (Inorder(ShapeOf(root))[i] < key <==> i < rank)
    {
      RankPlace(ShapeOf(root), key);
      rank := RankNode(root, key);
    }

    method FirstKey() returns (key: Option<int>)
      requires Valid()
      ensures var m := Content(ShapeOf(root));
              if root == null then key == None else key.Some? && key.value in m && forall x :: x in m ==> key.value <= x
    {
      if root == null {
        return None;
      }
      FindMinLeast(root.shape);
      var m := FindMin(root);
      key := Some(m.key);
    }
  }
}
