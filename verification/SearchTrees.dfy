/** Binary search trees as values: the map they stand for, the order of their keys, and ranks. */
module SearchTrees {
  import opened Options

  datatype Tree<V> = Leaf | Node(left: Tree<V>, key: int, value: V, right: Tree<V>, size: int)

  function GetSize<V>(t: Tree<V>): int {
    if t.Leaf? then 0 else t.size
  }

  function UpdateSize<V>(t: Tree<V>): Tree<V> {
    if t.Leaf? then t else t.(size := GetSize(t.left) + GetSize(t.right) + 1)
  }

  function Put<V>(t: Tree<V>, key: int, value: V): Tree<V> {
    if t.Leaf? then Node(Leaf, key, value, Leaf, 1)
    else if key < t.key then UpdateSize(t.(left := Put(t.left, key, value)))
    else if key > t.key then UpdateSize(t.(right := Put(t.right, key, value)))
    else UpdateSize(t.(value := value))
  }

  function Get<V>(t: Tree<V>, key: int): Option<V> {
    if t.Leaf? then None
    else if key < t.key then Get(t.left, key)
    else if key > t.key then Get(t.right, key)
    else Some(t.value)
  }

  function FindMin<V>(t: Tree<V>): Tree<V>
    requires t.Node?
    ensures FindMin(t).Node?
  {
    if t.left.Leaf? then t else FindMin(t.left)
  }

  function RemoveMin<V>(t: Tree<V>): Tree<V>
    requires t.Node?
  {
    if t.left.Leaf? then t.right else UpdateSize(t.(left := RemoveMin(t.left)))
  }

  function Remove<V>(t: Tree<V>, key: int): Tree<V> {
    if t.Leaf? then Leaf
    else if key < t.key then UpdateSize(t.(left := Remove(t.left, key)))
    else if key > t.key then UpdateSize(t.(right := Remove(t.right, key)))
    else if t.left.Leaf? then t.right
    else if t.right.Leaf? then t.left
    else
      var s := FindMin(t.right);
      UpdateSize(t.(key := s.key, value := s.value, right := RemoveMin(t.right)))
  }

  function Inorder<V>(t: Tree<V>): seq<int> {
    if t.Leaf? then [] else Inorder(t.left) + [t.key] + Inorder(t.right)
  }

  function Select<V>(t: Tree<V>, k: int): Option<int> {
    if t.Leaf? then None
    else
      var leftSize := GetSize(t.left);
      if leftSize > k then Select(t.left, k)
      else if leftSize == k then Some(t.key)
      else Select(t.right, k - leftSize - 1)
  }

  function Rank<V>(t: Tree<V>, key: int): int {
    if t.Leaf? then 0
    else if key < t.key then Rank(t.left, key)
    else if key > t.key then GetSize(t.left) + 1 + Rank(t.right, key)
    else GetSize(t.left)
  }

  // ----- what the trees keep -----

  ghost function Content<V>(t: Tree<V>): map<int, V> {
    if t.Leaf? then map[] else (Content(t.left) + Content(t.right))[t.key := t.value]
  }

  ghost predicate Below<V>(t: Tree<V>, k: int) {
    forall x :: x in Content(t) ==> x < k
  }

  ghost predicate Above<V>(t: Tree<V>, k: int) {
    forall x :: x in Content(t) ==> k < x
  }

  /** Smaller keys to the left, greater to the right, and the sizes exact. */
  ghost predicate Sound<V>(t: Tree<V>) {
    t.Node? ==>
      && Sound(t.left) && Sound(t.right) && Below(t.left, t.key) && Above(t.right, t.key)
      && t.size == GetSize(t.left) + GetSize(t.right) + 1
  }

  lemma {:induction false} GetContent<V>(t: Tree<V>, key: int)
    requires Sound(t)
    ensures Get(t, key) == if key in Content(t) then Some(Content(t)[key]) else None
  {
    if t.Node? {
      GetContent(t.left, key);
      GetContent(t.right, key);
    }
  }

  lemma NodeContent<V>(t: Tree<V>)
    requires t.Node?
    ensures Content(t) == (Content(t.left) + Content(t.right))[t.key := t.value]
    ensures Content(UpdateSize(t)) == Content(t)
    ensures Sound(t) ==> Content(t.left).Keys !! Content(t.right).Keys
    ensures Sound(t) ==> t.key !in Content(t.left) && t.key !in Content(t.right)
  {
    if Sound(t) {
      Between(t.left, t.right, t.key);
    }
  }

  lemma Between<V>(l: Tree<V>, r: Tree<V>, k: int)
    requires Below(l, k) && Above(r, k)
    ensures Content(l).Keys !! Content(r).Keys
  {
    forall x | x in Content(l)
      ensures x !in Content(r)
    {
      assert x < k;
    }
  }

  /** A change in the left part, or in the right, is a change in the whole. */
  lemma MapSides<V>(a: map<int, V>, b: map<int, V>, k: int, v: V, key: int, value: V)
    ensures key != k && key !in b ==> (a[key := value] + b)[k := v] == (a + b)[k := v][key := value]
    ensures key != k ==> (a + b[key := value])[k := v] == (a + b)[k := v][key := value]
    ensures key != k && key !in b ==> ((a - {key}) + b)[k := v] == (a + b)[k := v] - {key}
    ensures key != k && key !in a ==> (a + (b - {key}))[k := v] == (a + b)[k := v] - {key}
    ensures k !in a && k !in b ==> a + b == (a + b)[k := v] - {k}
    ensures (a + b)[k := v][k := value] == (a + b)[k := value]
  {
  }

  lemma {:induction false} PutContent<V>(t: Tree<V>, key: int, value: V)
    requires Sound(t)
    ensures Sound(Put(t, key, value)) && Content(Put(t, key, value)) == Content(t)[key := value]
  {
    if t.Node? {
      hide Content;
      NodeContent(t);
      MapSides(Content(t.left), Content(t.right), t.key, t.value, key, value);
      if key < t.key {
        PutContent(t.left, key, value);
        NodeContent(t.(left := Put(t.left, key, value)));
      } else if key > t.key {
        PutContent(t.right, key, value);
        NodeContent(t.(right := Put(t.right, key, value)));
      } else {
        NodeContent(t.(value := value));
      }
    }
  }

  /** A node with two subtrees gives way to the least key of the right one, and the left one stays. */
  lemma SuccessorRises<V>(t: Tree<V>)
    requires Sound(t) && t.Node? && t.left.Node? && t.right.Node?
    ensures var r := Remove(t, t.key);
            && r.Node? && r.key in Content(t.right) && r.value == Content(t.right)[r.key] && r.left == t.left
            && forall x :: x in Content(t.right) ==> r.key <= x
  {
    FindMinLeast(t.right);
  }

  lemma {:induction false} FindMinLeast<V>(t: Tree<V>)
    requires Sound(t) && t.Node?
    ensures var s := FindMin(t);
            s.key in Content(t) && Content(t)[s.key] == s.value && forall x :: x in Content(t) ==> s.key <= x
  {
    if t.left.Node? {
      FindMinLeast(t.left);
    }
  }

  lemma {:induction false} RemoveMinContent<V>(t: Tree<V>)
    requires Sound(t) && t.Node?
    ensures Sound(RemoveMin(t)) && Content(RemoveMin(t)) == Content(t) - {FindMin(t).key}
    ensures Above(RemoveMin(t), FindMin(t).key)
  {
    FindMinLeast(t);
    NodeContent(t);
    var m := FindMin(t).key;
    MapSides(Content(t.left), Content(t.right), t.key, t.value, m, t.value);
    if t.left.Node? {
      hide Content;
      RemoveMinContent(t.left);
      FindMinLeast(t.left);
      NodeContent(t.(left := RemoveMin(t.left)));
    } else {
      assert Content(t.left) == map[];
      assert map[] + Content(t.right) == Content(t.right);
    }
  }

  lemma {:induction false} RemoveContent<V>(t: Tree<V>, key: int)
    requires Sound(t)
    ensures Sound(Remove(t, key)) && Content(Remove(t, key)) == Content(t) - {key}
  {
    if t.Leaf? {
      assert Content(t) == map[];
    } else {
      LeafContent<V>(Content(t.left));
      LeafContent<V>(Content(t.right));
      hide Content;
      NodeContent(t);
      MapSides(Content(t.left), Content(t.right), t.key, t.value, key, t.value);
      if key < t.key {
        RemoveContent(t.left, key);
        NodeContent(t.(left := Remove(t.left, key)));
      } else if key > t.key {
        RemoveContent(t.right, key);
        NodeContent(t.(right := Remove(t.right, key)));
      } else if t.left.Node? && t.right.Node? {
        Successor(t);
      }
    }
  }

  lemma LeafContent<V>(m: map<int, V>)
    ensures Content<V>(Leaf) == map[] && map[] + m == m && m + map[] == m
  {
  }

  /** The least key of the right subtree takes the place of the removed one. */
  lemma Successor<V>(t: Tree<V>)
    requires Sound(t) && t.Node? && t.left.Node? && t.right.Node?
    ensures Sound(Remove(t, t.key)) && Content(Remove(t, t.key)) == Content(t) - {t.key}
  {
    hide Content;
    NodeContent(t);
    FindMinLeast(t.right);
    RemoveMinContent(t.right);
    var s := FindMin(t.right);
    var u := t.(key := s.key, value := s.value, right := RemoveMin(t.right));
    NodeContent(u);
    assert Remove(t, t.key) == UpdateSize(u);
    MapSuccessor(Content(t.left), Content(t.right), t.key, t.value, s.key, s.value);
    assert Below(u.left, u.key);
  }

  lemma MapSuccessor<V>(a: map<int, V>, b: map<int, V>, k: int, v: V, m: int, w: V)
    requires m in b && b[m] == w && k !in a && k !in b
    ensures (a + (b - {m}))[m := w] == (a + b)[k := v] - {k}
  {
  }

  // ----- order and ranks -----

  ghost predicate Increasing(s: seq<int>) {
    forall i, j :: 0 <= i < j < |s| ==> s[i] < s[j]
  }

  /** The keys in order: each once, strictly increasing, as many as the size says. */
  lemma {:induction false} InorderKeys<V>(t: Tree<V>)
    requires Sound(t)
    ensures Increasing(Inorder(t)) && |Inorder(t)| == GetSize(t)
    ensures forall x :: x in Inorder(t) <==> x in Content(t)
  {
    if t.Node? {
      InorderKeys(t.left);
      InorderKeys(t.right);
      var l, r := Inorder(t.left), Inorder(t.right);
      var s := Inorder(t);
      forall i, j | 0 <= i < j < |s|
        ensures s[i] < s[j]
      {
        assert i < |l| ==> s[i] == l[i] && l[i] in l;
        assert j < |l| ==> s[j] == l[j];
        assert j > |l| ==> s[j] == r[j - |l| - 1] && r[j - |l| - 1] in r;
        assert i > |l| ==> s[i] == r[i - |l| - 1];
      }
    }
  }

  /** Selecting gives the key at that place, and nothing outside. */
  lemma {:induction false} SelectPlace<V>(t: Tree<V>, k: int)
    requires Sound(t)
    ensures |Inorder(t)| == GetSize(t)
    ensures Select(t, k) == if 0 <= k < GetSize(t) then Some(Inorder(t)[k]) else None
  {
    InorderKeys(t);
    if t.Node? {
      InorderKeys(t.left);
      InorderKeys(t.right);
      var leftSize := GetSize(t.left);
      if leftSize > k {
        SelectPlace(t.left, k);
      } else if leftSize < k {
        SelectPlace(t.right, k - leftSize - 1);
      }
    }
  }

  /** The rank splits the ordered keys into the smaller ones and the others, whether the key is there or not. */
  lemma {:induction false} RankPlace<V>(t: Tree<V>, key: int)
    requires Sound(t)
    ensures 0 <= Rank(t, key) <= |Inorder(t)|
    ensures forall i :: 0 <= i < |Inorder(t)| ==> (Inorder(t)[i] < key <==> i < Rank(t, key))
  {
    if t.Node? {
      InorderKeys(t.left);
      InorderKeys(t.right);
      var l, r := Inorder(t.left), Inorder(t.right);
      var s := Inorder(t);
      if key < t.key {
        RankPlace(t.left, key);
      } else if key > t.key {
        RankPlace(t.right, key);
      }
      forall i | 0 <= i < |s|
        ensures s[i] < key <==> i < Rank(t, key)
      {
        assert i < |l| ==> s[i] == l[i] && l[i] in l;
        assert i > |l| ==> s[i] == r[i - |l| - 1] && r[i - |l| - 1] in r;
      }
    }
  }

  /** Rank and select undo each other. */
  lemma RankSelect<V>(t: Tree<V>, key: int)
    requires Sound(t)
    ensures Select(t, Rank(t, key)) == Some(key) <==> key in Content(t)
  {
    InorderKeys(t);
    RankPlace(t, key);
    SelectPlace(t, Rank(t, key));
    if key in Content(t) {
      var i :| 0 <= i < |Inorder(t)| && Inorder(t)[i] == key;
    } else if Rank(t, key) < |Inorder(t)| {
      assert Inorder(t)[Rank(t, key)] in Inorder(t);
    }
  }

  lemma SelectRank<V>(t: Tree<V>, k: int)
    requires Sound(t) && 0 <= k < GetSize(t)
    ensures Select(t, k).Some? && Rank(t, Select(t, k).value) == k
  {
    InorderKeys(t);
    SelectPlace(t, k);
    var key := Inorder(t)[k];
    RankPlace(t, key);
    var r := Rank(t, key);
    assert r < |Inorder(t)| ==> !(Inorder(t)[r] < key);
    assert !(Inorder(t)[k] < key);
  }
}
