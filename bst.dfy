/**
 * The size-augmented binary search tree of bst.py. A TreeNode is a value here:
 * `Nil` stands for Python's None and `subtreeSize` is the field the code stores
 * and updates, so the size invariant is a property to keep, not a definition.
 */
module Bst {
  import opened Outcomes

  datatype Tree<V> = Nil | Node(key: int, item: V, left: Tree<V>, right: Tree<V>, subtreeSize: int)

  /** `t.subtree_size if t else 0`: the size stored at the root of a subtree. */
  function StoredSize<V>(t: Tree<V>): int {
    if t.Nil? then 0 else t.subtreeSize
  }

  /** A node whose subtree_size is recomputed from its children, as after every insert and delete. */
  function Resized<V>(key: int, item: V, left: Tree<V>, right: Tree<V>): Tree<V> {
    Node(key, item, left, right, 1 + StoredSize(left) + StoredSize(right))
  }

  // ---------------------------------------------------------------------------
  // The abstract view of a tree

  /** The number of nodes. */
  ghost function Count<V>(t: Tree<V>): nat {
    match t
    case Nil => 0
    case Node(_, _, l, r, _) => 1 + Count(l) + Count(r)
  }

  ghost function Keys<V>(t: Tree<V>): set<int> {
    match t
    case Nil => {}
    case Node(k, _, l, r, _) => Keys(l) + {k} + Keys(r)
  }

  /** The keys in in-order (left, node, right). */
  ghost function InOrder<V>(t: Tree<V>): seq<int> {
    match t
    case Nil => []
    case Node(k, _, l, r, _) => InOrder(l) + [k] + InOrder(r)
  }

  /** The key to item mapping the tree stores. */
  ghost function Items<V>(t: Tree<V>): map<int, V> {
    match t
    case Nil => map[]
    case Node(k, v, l, r, _) => (Items(l) + Items(r))[k := v]
  }

  /** Binary-search-tree ordering: left keys < node key < right keys, at every node. */
  ghost predicate Ordered<V>(t: Tree<V>) {
    match t
    case Nil => true
    case Node(k, _, l, r, _) =>
      Ordered(l) && Ordered(r) &&
      (forall j :: j in Keys(l) ==> j < k) &&
      (forall j :: j in Keys(r) ==> k < j)
  }

  /** subtree_size = 1 + size of left + size of right (an absent child counts 0), at every node. */
  ghost predicate SizesOk<V>(t: Tree<V>) {
    match t
    case Nil => true
    case Node(_, _, l, r, s) => s == 1 + StoredSize(l) + StoredSize(r) && SizesOk(l) && SizesOk(r)
  }

  ghost predicate IsBst<V>(t: Tree<V>) {
    Ordered(t) && SizesOk(t)
  }

  ghost predicate StrictlyIncreasing(s: seq<int>) {
    forall i, j :: 0 <= i < j < |s| ==> s[i] < s[j]
  }

  // ---------------------------------------------------------------------------
  // Facts about the abstract view

  lemma {:induction false} StoredSizeIsCount<V>(t: Tree<V>)
    requires SizesOk(t)
    ensures StoredSize(t) == Count(t)
  {
    match t
    case Nil =>
    case Node(_, _, l, r, _) =>
      StoredSizeIsCount(l);
      StoredSizeIsCount(r);
  }

  lemma {:induction false} ItemsDomain<V>(t: Tree<V>)
    ensures Items(t).Keys == Keys(t)
  {
    match t
    case Nil =>
    case Node(_, _, l, r, _) =>
      ItemsDomain(l);
      ItemsDomain(r);
  }

  lemma {:induction false} InOrderFacts<V>(t: Tree<V>)
    ensures |InOrder(t)| == Count(t)
    ensures forall i :: 0 <= i < |InOrder(t)| ==> InOrder(t)[i] in Keys(t)
    ensures forall k :: k in Keys(t) ==> k in InOrder(t)
    ensures Ordered(t) ==> StrictlyIncreasing(InOrder(t))
  {
    match t
    case Nil =>
    case Node(k, _, l, r, _) =>
      InOrderFacts(l);
      InOrderFacts(r);
      var s := InOrder(t);
      assert s == InOrder(l) + [k] + InOrder(r);
      forall i | 0 <= i < |s| ensures s[i] in Keys(t) {
        if i < |InOrder(l)| {
          assert s[i] == InOrder(l)[i];
        } else if i > |InOrder(l)| {
          assert s[i] == InOrder(r)[i - |InOrder(l)| - 1];
        }
      }
      if Ordered(t) {
        forall i, j | 0 <= i < j < |s| ensures s[i] < s[j] {
          var nl := |InOrder(l)|;
          if j < nl {
            assert s[i] == InOrder(l)[i] && s[j] == InOrder(l)[j];
          } else if i > nl {
            assert s[i] == InOrder(r)[i - nl - 1] && s[j] == InOrder(r)[j - nl - 1];
          } else {
            if i < nl { assert s[i] == InOrder(l)[i]; }
            if j > nl { assert s[j] == InOrder(r)[j - nl - 1]; }
          }
        }
      }
  }

  /** In an ordered tree the item stored under any key of the left (resp. right) subtree is the subtree's. */
  lemma {:induction false} OrderedItems<V>(t: Tree<V>, j: int)
    requires t.Node? && Ordered(t) && j in Keys(t)
    ensures j in Items(t)
    ensures j in Keys(t.left) ==> j in Items(t.left) && Items(t)[j] == Items(t.left)[j]
    ensures j in Keys(t.right) ==> j in Items(t.right) && Items(t)[j] == Items(t.right)[j]
    ensures j == t.key ==> Items(t)[j] == t.item
  {
    ItemsDomain(t);
    ItemsDomain(t.left);
    ItemsDomain(t.right);
  }

  // ---------------------------------------------------------------------------
  // Lookup: __getitem__ / get_tree_node_by_key_aux

  /** Descends by comparison; raises KeyError when it falls off the tree. */
  function GetTreeNodeByKeyAux<V>(current: Tree<V>, key: int): (r: Result<Tree<V>>)
    ensures r.Err? ==> r.error == KeyError
    ensures r.Ok? ==> r.value.Node? && r.value.key == key
    ensures Ordered(current) ==> (r.Ok? <==> key in Keys(current))
    ensures Ordered(current) && r.Ok? ==> key in Items(current) && Items(current)[key] == r.value.item
  {
    match current
    case Nil => Err(KeyError)
    case Node(k, _, l, r, _) =>
      if key == k then
        assert Ordered(current) ==> key in Items(current) && Items(current)[key] == current.item by {
          if Ordered(current) { OrderedItems(current, key); }
        }
        Ok(current)
      else if key < k then
        var res := GetTreeNodeByKeyAux(l, key);
        assert Ordered(current) && res.Ok? ==> Items(current)[key] == Items(l)[key] by {
          if Ordered(current) && res.Ok? { OrderedItems(current, key); }
        }
        res
      else
        var res := GetTreeNodeByKeyAux(r, key);
        assert Ordered(current) && res.Ok? ==> Items(current)[key] == Items(r)[key] by {
          if Ordered(current) && res.Ok? { OrderedItems(current, key); }
        }
        res
  }

  // ---------------------------------------------------------------------------
  // Insert: __setitem__ / insert_aux

  /**
   * Inserts a new leaf, rebuilding the sizes on the way back up; a key that is
   * already present raises ValueError before anything is assigned.
   */
  function InsertAux<V>(current: Tree<V>, key: int, item: V): (r: Result<Tree<V>>)
    ensures IsBst(current) ==> (r.Err? <==> key in Keys(current))
    ensures r.Err? ==> r.error == ValueError
    ensures IsBst(current) && r.Ok? ==> InsertedInto(r.value, current, key, item)
  {
    match current
    case Nil =>
      var t := Node(key, item, Nil, Nil, 1);
      InsertInLeaf(key, item);
      Ok(t)
    case Node(k, v, l, r, _) =>
      if key < k then
        match InsertAux(l, key, item)
        case Err(e) => Err(e)
        case Ok(l2) =>
          var t := Resized(k, v, l2, r);
          assert IsBst(current) ==> InsertedInto(t, current, key, item) by {
            if IsBst(current) { InsertInLeft(current, key, item, l2); }
          }
          Ok(t)
      else if key > k then
        match InsertAux(r, key, item)
        case Err(e) => Err(e)
        case Ok(r2) =>
          var t := Resized(k, v, l, r2);
          assert IsBst(current) ==> InsertedInto(t, current, key, item) by {
            if IsBst(current) { InsertInRight(current, key, item, r2); }
          }
          Ok(t)
      else
        Err(ValueError)
  }

  /** `t` is `current` with (key, item) added: still a BST, one more key, that key mapped to item. */
  ghost predicate InsertedInto<V>(t: Tree<V>, current: Tree<V>, key: int, item: V) {
    IsBst(t) &&
    Keys(t) == Keys(current) + {key} &&
    Items(t) == Items(current)[key := item] &&
    Count(t) == Count(current) + 1
  }

  lemma InsertInLeaf<V>(key: int, item: V)
    ensures InsertedInto(Node(key, item, Nil, Nil, 1), Nil, key, item)
  {
    assert Items(Node(key, item, Nil, Nil, 1)) == map[key := item];
  }

  lemma {:induction false} InsertInLeft<V>(current: Tree<V>, key: int, item: V, l2: Tree<V>)
    requires IsBst(current) && current.Node? && key < current.key
    requires InsertedInto(l2, current.left, key, item)
    ensures InsertedInto(Resized(current.key, current.item, l2, current.right), current, key, item)
  {
    var Node(k, v, l, r, _) := current;
    StoredSizeIsCount(l2); StoredSizeIsCount(r);
    assert key !in Keys(r);
    ItemsDomain(r);
    InsertItemsLeft(Items(l), Items(l2), Items(r), k, v, key, item);
  }

  lemma {:induction false} InsertInRight<V>(current: Tree<V>, key: int, item: V, r2: Tree<V>)
    requires IsBst(current) && current.Node? && key > current.key
    requires InsertedInto(r2, current.right, key, item)
    ensures InsertedInto(Resized(current.key, current.item, current.left, r2), current, key, item)
  {
    var Node(k, v, l, r, _) := current;
    StoredSizeIsCount(r2); StoredSizeIsCount(l);
    assert key !in Keys(l);
    ItemsDomain(l);
    InsertItemsRight(Items(l), Items(r), Items(r2), k, v, key, item);
  }

  /** Adding (key, item) to the left map of a node adds it to the node's map. */
  lemma InsertItemsLeft<V>(il: map<int, V>, il2: map<int, V>, ir: map<int, V>, k: int, v: V, key: int, item: V)
    requires key != k && key !in ir && il2 == il[key := item]
    ensures (il2 + ir)[k := v] == ((il + ir)[k := v])[key := item]
  {
  }

  /** Adding (key, item) to the right map of a node adds it to the node's map. */
  lemma InsertItemsRight<V>(il: map<int, V>, ir: map<int, V>, ir2: map<int, V>, k: int, v: V, key: int, item: V)
    requires key != k && ir2 == ir[key := item]
    ensures (il + ir2)[k := v] == ((il + ir)[k := v])[key := item]
  {
  }

  // ---------------------------------------------------------------------------
  // get_minimal, get_successor, is_leaf

  /** The node reached by following left children from the root of a non-empty subtree. */
  function Leftmost<V>(t: Tree<V>): (m: Tree<V>)
    requires t.Node?
    ensures m.Node? && m.left.Nil?
    ensures Ordered(t) ==>
      m.key in Keys(t) && m.key in Items(t) && Items(t)[m.key] == m.item &&
      forall j :: j in Keys(t) ==> m.key <= j
  {
    if t.left.Nil? then
      assert Ordered(t) ==> t.key in Items(t) && Items(t)[t.key] == t.item by {
        if Ordered(t) { OrderedItems(t, t.key); }
      }
      t
    else
      var m := Leftmost(t.left);
      assert Ordered(t) ==> m.key in Items(t) && Items(t)[m.key] == m.item by {
        if Ordered(t) { OrderedItems(t, m.key); }
      }
      m
  }

  /** get_minimal: walks down the left spine with a loop; None for an empty subtree. */
  method GetMinimal<V>(current: Tree<V>) returns (r: Option<Tree<V>>)
    ensures r.None? <==> current.Nil?
    ensures r.Some? ==> r.value.Node? && r.value.left.Nil?
    ensures r.Some? && Ordered(current) ==>
      r.value.key in Keys(current) && r.value.key in Items(current) &&
      Items(current)[r.value.key] == r.value.item &&
      forall j :: j in Keys(current) ==> r.value.key <= j
  {
    if current.Nil? {
      return None;
    }
    var node := current;
    while node.left.Node?
      invariant node.Node? && Leftmost(node) == Leftmost(current)
      decreases node
    {
      node := node.left;
    }
    return Some(node);
  }

  /**
   * The successor of a node within its own subtree: the minimum of its right subtree,
   * or None when there is no right child.
   */
  function GetSuccessor<V>(node: Tree<V>): (r: Option<Tree<V>>)
    ensures r.Some? <==> node.Node? && node.right.Node?
    ensures r.Some? ==> r.value.Node?
    ensures r.Some? && Ordered(node) ==>
      node.key < r.value.key && r.value.key in Keys(node.right) &&
      r.value.key in Items(node.right) && Items(node.right)[r.value.key] == r.value.item &&
      forall j :: j in Keys(node) && node.key < j ==> r.value.key <= j
  {
    if node.Nil? then None
    else if node.right.Node? then Some(Leftmost(node.right))
    else None
  }

  /** A node is a leaf when it has neither child. */
  function IsLeaf<V>(current: Tree<V>): (b: bool)
    requires current.Node?
    ensures b <==> Count(current) == 1
  {
    current.left.Nil? && current.right.Nil?
  }

  // ---------------------------------------------------------------------------
  // Delete: __delitem__ / delete_aux

  /**
   * Removes a key: a leaf or a node with one child is spliced out; a node with two
   * children takes its successor's key and item, and the successor is then deleted
   * from the right subtree. An absent key raises ValueError. What the result holds
   * is proved in DeleteAuxCorrect.
   */
  function DeleteAux<V>(current: Tree<V>, key: int): (r: Result<Tree<V>>)
    ensures Ordered(current) ==> (r.Ok? <==> key in Keys(current))
    ensures r.Err? ==> r.error == ValueError
  {
    match current
    case Nil => Err(ValueError)
    case Node(k, v, l, r, _) =>
      if key < k then
        match DeleteAux(l, key)
        case Err(e) => Err(e)
        case Ok(l2) => Ok(Resized(k, v, l2, r))
      else if key > k then
        match DeleteAux(r, key)
        case Err(e) => Err(e)
        case Ok(r2) => Ok(Resized(k, v, l, r2))
      else if IsLeaf(current) then
        Ok(Nil)
      else if l.Nil? then
        Ok(r)
      else if r.Nil? then
        Ok(l)
      else
        var succ := GetSuccessor(current).value;
        match DeleteAux(r, succ.key)
        case Err(e) => Err(e)
        case Ok(r2) => Ok(Resized(succ.key, succ.item, l, r2))
  }

  /** What a correct deletion of `key` from `current` yields. */
  ghost predicate DeletedFrom<V>(t: Tree<V>, current: Tree<V>, key: int) {
    IsBst(t) &&
    Keys(t) == Keys(current) - {key} &&
    Items(t) == Items(current) - {key} &&
    Count(t) == Count(current) - 1
  }

  /** Deleting a present key removes exactly that key and keeps the tree a size-augmented BST. */
  lemma {:induction false} DeleteAuxCorrect<V>(current: Tree<V>, key: int)
    requires IsBst(current) && key in Keys(current)
    ensures DeleteAux(current, key).Ok?
    ensures DeletedFrom(DeleteAux(current, key).value, current, key)
  {
    var Node(k, v, l, r, _) := current;
    if key < k {
      DeleteAuxCorrect(l, key);
      DeleteInLeft(current, key, DeleteAux(l, key).value);
    } else if key > k {
      DeleteAuxCorrect(r, key);
      DeleteInRight(current, key, DeleteAux(r, key).value);
    } else if l.Nil? || r.Nil? {
      DeleteSpliced(current);
    } else {
      var succ := GetSuccessor(current).value;
      DeleteAuxCorrect(r, succ.key);
      DeleteAtSuccessor(current, DeleteAux(r, succ.key).value);
    }
  }

  /** The key is at a node with two children: the successor takes its place and leaves the right subtree. */
  lemma {:induction false} DeleteAtSuccessor<V>(current: Tree<V>, r2: Tree<V>)
    requires IsBst(current) && current.Node? && current.left.Node? && current.right.Node?
    requires GetSuccessor(current).Some? && GetSuccessor(current).value.key in Keys(current.right)
    requires DeleteAux(current.right, GetSuccessor(current).value.key) == Ok(r2)
    requires DeletedFrom(r2, current.right, GetSuccessor(current).value.key)
    ensures DeleteAux(current, current.key).Ok?
    ensures DeletedFrom(DeleteAux(current, current.key).value, current, current.key)
  {
    var succ := GetSuccessor(current).value;
    DeleteSuccessorOrdered(current, succ.key, r2);
    DeleteSuccessorItems(current, succ.key, succ.item, r2);
    StoredSizeIsCount(current.right); StoredSizeIsCount(r2);
  }

  /** The key lies in the left subtree, which has been replaced by its deleted form. */
  lemma {:induction false} DeleteInLeft<V>(current: Tree<V>, key: int, l2: Tree<V>)
    requires IsBst(current) && current.Node? && key in Keys(current.left)
    requires DeletedFrom(l2, current.left, key)
    ensures DeletedFrom(Resized(current.key, current.item, l2, current.right), current, key)
  {
    var Node(k, v, l, r, _) := current;
    StoredSizeIsCount(l2); StoredSizeIsCount(r);
    LeftItemsDeleted(current, key, l2);
  }

  lemma {:induction false} LeftItemsDeleted<V>(current: Tree<V>, key: int, l2: Tree<V>)
    requires Ordered(current) && current.Node? && key in Keys(current.left)
    requires Keys(l2) == Keys(current.left) - {key} && Items(l2) == Items(current.left) - {key}
    ensures Items(Resized(current.key, current.item, l2, current.right)) == Items(current) - {key}
  {
    var Node(k, v, l, r, _) := current;
    ItemsDomain(l); ItemsDomain(r);
    var lhs := (Items(l2) + Items(r))[k := v];
    var rhs := (Items(l) + Items(r))[k := v] - {key};
    assert lhs.Keys == rhs.Keys;
    forall j | j in lhs ensures lhs[j] == rhs[j] {
      if j != k && j !in Items(r) { assert j in Items(l2); }
    }
    assert Items(Resized(k, v, l2, r)) == lhs;
  }

  /** The key lies in the right subtree, which has been replaced by its deleted form. */
  lemma {:induction false} DeleteInRight<V>(current: Tree<V>, key: int, r2: Tree<V>)
    requires IsBst(current) && current.Node? && key in Keys(current.right)
    requires DeletedFrom(r2, current.right, key)
    ensures DeletedFrom(Resized(current.key, current.item, current.left, r2), current, key)
  {
    var Node(k, v, l, r, _) := current;
    StoredSizeIsCount(l); StoredSizeIsCount(r2);
    RightItemsDeleted(current, key, r2);
  }

  lemma {:induction false} RightItemsDeleted<V>(current: Tree<V>, key: int, r2: Tree<V>)
    requires Ordered(current) && current.Node? && key in Keys(current.right)
    requires Keys(r2) == Keys(current.right) - {key} && Items(r2) == Items(current.right) - {key}
    ensures Items(Resized(current.key, current.item, current.left, r2)) == Items(current) - {key}
  {
    var Node(k, v, l, r, _) := current;
    ItemsDomain(l); ItemsDomain(r);
    var lhs := (Items(l) + Items(r2))[k := v];
    var rhs := (Items(l) + Items(r))[k := v] - {key};
    assert lhs.Keys == rhs.Keys;
    forall j | j in lhs ensures lhs[j] == rhs[j] {
      if j != k && j !in Items(r2) { assert j !in Items(r); }
    }
    assert Items(Resized(k, v, l, r2)) == lhs;
  }

  /** A node with at most one child is replaced by that child. */
  lemma {:induction false} DeleteSpliced<V>(current: Tree<V>)
    requires IsBst(current) && current.Node? && (current.left.Nil? || current.right.Nil?)
    ensures DeleteAux(current, current.key).Ok?
    ensures DeletedFrom(DeleteAux(current, current.key).value, current, current.key)
  {
    var Node(k, v, l, r, _) := current;
    ItemsDomain(l); ItemsDomain(r);
    if l.Nil? {
      assert Items(r) == Items(current) - {k};
    } else {
      assert Items(l) == Items(current) - {k};
    }
  }

  /** Ordering in the two-child case of DeleteAux. */
  lemma {:induction false} DeleteSuccessorOrdered<V>(t: Tree<V>, s: int, r2: Tree<V>)
    requires t.Node? && Ordered(t) && Ordered(r2)
    requires s in Keys(t.right) && forall j :: j in Keys(t.right) ==> s <= j
    requires Keys(r2) == Keys(t.right) - {s}
    ensures Ordered(Resized(s, t.item, t.left, r2))
  {
    assert forall j :: j in Keys(t.left) ==> j < t.key;
    assert t.key < s;
  }

  /** The map arithmetic of the two-child case of DeleteAux. */
  lemma {:induction false} DeleteSuccessorItems<V>(t: Tree<V>, s: int, sItem: V, r2: Tree<V>)
    requires t.Node? && Ordered(t)
    requires s in Items(t.right) && Items(t.right)[s] == sItem
    requires Keys(r2) == Keys(t.right) - {s} && Items(r2) == Items(t.right) - {s}
    ensures Items(Resized(s, sItem, t.left, r2)) == Items(t) - {t.key}
  {
    var Node(k, v, l, r, _) := t;
    ItemsDomain(l); ItemsDomain(r);
    assert Items(Resized(s, sItem, l, r2)) == (Items(l) + Items(r2))[s := sItem];
    SpliceItems(Items(l), Items(r), Items(r2), k, v, s, sItem);
  }

  /** The map identity behind the two-child delete: the successor's entry moves up to replace the node's. */
  lemma SpliceItems<V>(il: map<int, V>, ir: map<int, V>, ir2: map<int, V>, k: int, v: V, s: int, sItem: V)
    requires forall j :: j in il ==> j < k
    requires forall j :: j in ir ==> k < j
    requires s in ir && ir[s] == sItem && ir2 == ir - {s}
    ensures (il + ir2)[s := sItem] == (il + ir)[k := v] - {k}
  {
    var lhs := (il + ir2)[s := sItem];
    var rhs := (il + ir)[k := v] - {k};
    forall j ensures j in lhs <==> j in rhs {
    }
    forall j | j in lhs ensures lhs[j] == rhs[j] {
      if j == s {
        assert rhs[j] == ir[j];
      } else if j in ir2 {
        assert lhs[j] == ir2[j] == ir[j] && rhs[j] == ir[j];
      } else {
        assert j in il && j !in ir;
        assert lhs[j] == il[j] && rhs[j] == il[j];
      }
    }
  }

  /** The first element of a strictly increasing sequence is below every later one. */
  lemma {:induction false} FirstIsLeast(s: seq<int>, x: int)
    requires StrictlyIncreasing(s) && x in s
    ensures s[0] <= x
  {
    var j :| 0 <= j < |s| && s[j] == x;
    assert j == 0 || s[0] < s[j];
  }

  lemma FirstIn(s: seq<int>)
    requires s != []
    ensures s[0] in s
  {
  }

  /** A strictly increasing sequence is determined by its set of elements. */
  lemma {:induction false} StrictlyIncreasingUnique(a: seq<int>, b: seq<int>)
    requires StrictlyIncreasing(a) && StrictlyIncreasing(b)
    requires forall x :: x in a <==> x in b
    ensures a == b
  {
    if a == [] && b == [] {
    } else if a == [] {
      FirstIn(b);
      assert false;
    } else if b == [] {
      FirstIn(a);
      assert false;
    } else {
      FirstIn(a);
      FirstIn(b);
      FirstIsLeast(a, b[0]);
      FirstIsLeast(b, a[0]);
      assert a[0] == b[0];
      forall x ensures x in a[1..] <==> x in b[1..] {
        TailMembers(a, x);
        TailMembers(b, x);
      }
      StrictlyIncreasingUnique(a[1..], b[1..]);
      assert a == [a[0]] + a[1..] && b == [b[0]] + b[1..];
    }
  }

  /** The tail of a strictly increasing sequence holds exactly its elements other than the first. */
  lemma {:induction false} TailMembers(s: seq<int>, x: int)
    requires StrictlyIncreasing(s) && s != []
    ensures x in s[1..] <==> x in s && x != s[0]
  {
    if x in s && x != s[0] {
      var j :| 0 <= j < |s| && s[j] == x;
      assert s[1..][j - 1] == x;
    }
    if x in s[1..] {
      var j :| 0 <= j < |s| - 1 && s[1..][j] == x;
      assert s[j + 1] == x && s[0] < s[j + 1];
    }
  }

  /** The in-order key sequence of a BST depends only on which keys it stores. */
  lemma {:induction false} InOrderDeterminedByKeys<V, W>(t: Tree<V>, u: Tree<W>)
    requires Ordered(t) && Ordered(u) && Keys(t) == Keys(u)
    ensures InOrder(t) == InOrder(u)
  {
    InOrderFacts(t);
    InOrderFacts(u);
    StrictlyIncreasingUnique(InOrder(t), InOrder(u));
  }

  // ---------------------------------------------------------------------------
  // Rank query: kth_smallest

  /** Distinct keys: in an ordered tree there are as many keys as nodes. */
  lemma {:induction false} KeysCount<V>(t: Tree<V>)
    requires Ordered(t)
    ensures |Keys(t)| == Count(t)
  {
    match t
    case Nil =>
    case Node(k, _, l, r, _) =>
      KeysCount(l);
      KeysCount(r);
      assert Keys(l) !! Keys(r) by {
        forall j | j in Keys(l) ensures j !in Keys(r) { assert j < k; }
      }
      DisjointUnionSize(Keys(l), Keys(r), k);
  }

  lemma DisjointUnionSize(a: set<int>, b: set<int>, k: int)
    requires a !! b && k !in a && k !in b
    ensures |a + {k} + b| == |a| + 1 + |b|
  {
    assert a + {k} + b == (a + b) + {k};
    assert |a + b| == |a| + |b|;
  }

  /**
   * The node of in-order rank k (1-indexed), using the stored sizes to choose a side;
   * None when k lies outside 1..size.
   */
  function KthSmallest<V>(k: int, current: Tree<V>): (r: Option<Tree<V>>)
    ensures SizesOk(current) ==> (r.Some? <==> 1 <= k <= Count(current))
    ensures SizesOk(current) && r.Some? ==>
      r.value.Node? && 0 <= k - 1 < |InOrder(current)| && r.value.key == InOrder(current)[k - 1]
    ensures IsBst(current) && r.Some? ==>
      r.value.key in Items(current) && Items(current)[r.value.key] == r.value.item
    decreases current
  {
    match current
    case Nil => None
    case Node(key, _, l, right, _) =>
      var leftSize := StoredSize(l);
      assert SizesOk(current) ==>
        leftSize == Count(l) && |InOrder(l)| == Count(l) && |InOrder(current)| == Count(current) by {
        if SizesOk(current) { StoredSizeIsCount(l); InOrderFacts(l); InOrderFacts(current); }
      }
      if k == leftSize + 1 then
        assert IsBst(current) ==> key in Items(current) && Items(current)[key] == current.item by {
          if IsBst(current) { OrderedItems(current, key); }
        }
        Some(current)
      else if k <= leftSize then
        var res := KthSmallest(k, l);
        assert IsBst(current) && res.Some? ==> Items(current)[res.value.key] == Items(l)[res.value.key] by {
          if IsBst(current) && res.Some? { ItemsDomain(l); OrderedItems(current, res.value.key); }
        }
        res
      else
        var res := KthSmallest(k - leftSize - 1, right);
        assert IsBst(current) && res.Some? ==> Items(current)[res.value.key] == Items(right)[res.value.key] by {
          if IsBst(current) && res.Some? { ItemsDomain(right); OrderedItems(current, res.value.key); }
        }
        res
  }

  // ---------------------------------------------------------------------------
  // The tree object

  /** BinarySearchTree: the root node and the `length` counter, both reassigned by insert and delete. */
  class BinarySearchTree<V> {
    var root: Tree<V>
    var length: int

    /** The tree is a size-augmented BST and `length` counts its nodes. */
    ghost predicate Valid()
      reads this
    {
      IsBst(root) && length == Count(root)
    }

    constructor ()
      ensures Valid() && root == Nil && length == 0
    {
      root := Nil;
      length := 0;
    }

    /** is_empty: the root is None. */
    function IsEmpty(): (b: bool)
      reads this
      ensures b <==> Keys(root) == {}
      ensures Valid() ==> (b <==> Len() == 0)
    {
      root.Nil?
    }

    /** __len__: the counter, which is the number of stored keys. */
    function Len(): (n: int)
      reads this
      ensures Valid() ==> n == Count(root) && n == |Keys(root)|
    {
      assert Valid() ==> length == |Keys(root)| by {
        if Valid() { KeysCount(root); }
      }
      length
    }

    /** __getitem__: the item stored under the key, or KeyError. */
    function GetItem(key: int): (r: Result<V>)
      reads this
      ensures r.Err? ==> r.error == KeyError
      ensures Valid() ==> (r.Ok? <==> key in Items(root))
      ensures Valid() && r.Ok? ==> r.value == Items(root)[key]
    {
      ItemsDomain(root);
      match GetTreeNodeByKeyAux(root, key)
      case Ok(node) => Ok(node.item)
      case Err(e) => Err(e)
    }

    /** __contains__: true exactly when the lookup does not raise KeyError. */
    function Contains(key: int): (b: bool)
      reads this
      ensures Valid() ==> (b <==> key in Keys(root))
    {
      ItemsDomain(root);
      GetItem(key).Ok?
    }

    /** __setitem__: inserts a new key, or raises ValueError and changes nothing. */
    method SetItem(key: int, item: V) returns (o: Outcome)
      requires Valid()
      modifies this
      ensures Valid()
      ensures o.Fail? <==> key in old(Keys(root))
      ensures o.Fail? ==> o.error == ValueError && root == old(root) && length == old(length)
      ensures o.Done? ==>
        root == InsertAux(old(root), key, item).value &&
        Items(root) == old(Items(root))[key := item] &&
        length == old(length) + 1
    {
      match InsertAux(root, key, item)
      case Err(e) =>
        o := Fail(e);
      case Ok(t) =>
        root := t;
        length := length + 1;
        o := Done;
    }

    /** __delitem__: removes a present key, or raises ValueError and changes nothing. */
    method DelItem(key: int) returns (o: Outcome)
      requires Valid()
      modifies this
      ensures Valid()
      ensures o.Fail? <==> key !in old(Keys(root))
      ensures o.Fail? ==> o.error == ValueError && root == old(root) && length == old(length)
      ensures o.Done? ==>
        root == DeleteAux(old(root), key).value &&
        Items(root) == old(Items(root)) - {key} &&
        length == old(length) - 1
    {
      match DeleteAux(root, key)
      case Err(e) =>
        o := Fail(e);
      case Ok(t) =>
        DeleteAuxCorrect(root, key);
        root := t;
        length := length - 1;
        o := Done;
    }
  }

  /** Inserts the keys of `ks` in order, each with item 10 times its key; None once an insert raises. */
  function InsertKeys(t: Tree<int>, ks: seq<int>): Option<Tree<int>>
    decreases ks
  {
    if ks == [] then Some(t)
    else match InsertAux(t, ks[0], 10 * ks[0])
      case Err(_) => None
      case Ok(t2) => InsertKeys(t2, ks[1..])
  }

  /** The tree that keys 5, 3, 8, 1, 4, 7, 9 build, and the same tree once key 5 is deleted. */
  function ScenarioTree(): Tree<int> {
    Node(5, 50, Node(3, 30, Node(1, 10, Nil, Nil, 1), Node(4, 40, Nil, Nil, 1), 3),
                Node(8, 80, Node(7, 70, Nil, Nil, 1), Node(9, 90, Nil, Nil, 1), 3), 7)
  }

  function ScenarioTreeDeleted(): Tree<int> {
    Node(7, 70, Node(3, 30, Node(1, 10, Nil, Nil, 1), Node(4, 40, Nil, Nil, 1), 3),
                Node(8, 80, Nil, Node(9, 90, Nil, Nil, 1), 2), 6)
  }

  lemma ScenarioBuild()
    ensures InsertKeys(Nil, [5, 3, 8, 1, 4, 7, 9]) == Some(ScenarioTree())
  {
    var n1 := Node(1, 10, Nil, Nil, 1);
    var n3 := Node(3, 30, n1, Node(4, 40, Nil, Nil, 1), 3);
    var t3 := Node(5, 50, Node(3, 30, Nil, Nil, 1), Node(8, 80, Nil, Nil, 1), 3);
    var t4 := Node(5, 50, Node(3, 30, n1, Nil, 2), Node(8, 80, Nil, Nil, 1), 4);
    var t5 := Node(5, 50, n3, Node(8, 80, Nil, Nil, 1), 5);
    var t6 := Node(5, 50, n3, Node(8, 80, Node(7, 70, Nil, Nil, 1), Nil, 2), 6);
    assert InsertKeys(t6, [9]) == Some(ScenarioTree());
    assert InsertKeys(t5, [7, 9]) == Some(ScenarioTree());
    assert InsertKeys(t4, [4, 7, 9]) == Some(ScenarioTree());
    assert InsertKeys(t3, [1, 4, 7, 9]) == Some(ScenarioTree());
  }

  /** In the tree keys 5, 3, 8, 1, 4, 7, 9 build, rank 4 is key 5, at the root. */
  lemma ScenarioRankBefore()
    ensures KthSmallest(4, ScenarioTree()) == Some(ScenarioTree()) && ScenarioTree().key == 5
  {
    var t := ScenarioTree();
    assert StoredSize(t.left) == 3;
  }

  /** Deleting key 5 from that tree moves its successor, key 7, to the root. */
  lemma ScenarioDelete()
    ensures DeleteAux(ScenarioTree(), 5) == Ok(ScenarioTreeDeleted())
  {
    var t := ScenarioTree();
    var n7 := Node(7, 70, Nil, Nil, 1);
    var n9 := Node(9, 90, Nil, Nil, 1);
    assert Leftmost(t.right) == n7;
    assert GetSuccessor(t) == Some(n7);
    assert DeleteAux(n7, 7) == Ok(Nil);
    assert DeleteAux(t.right, 7) == Ok(Node(8, 80, Nil, n9, 2));
  }

  /** Once key 5 is deleted, rank 4 is key 7. */
  lemma ScenarioRankAfter()
    ensures KthSmallest(4, ScenarioTreeDeleted()) == Some(ScenarioTreeDeleted()) && ScenarioTreeDeleted().key == 7
  {
    var t := ScenarioTreeDeleted();
    assert StoredSize(t.left) == 3;
  }

}
