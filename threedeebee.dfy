/**
 * The point tree of threedeebeetree.py: an unbalanced tree over integer 3-D points in which
 * each node has up to eight children, one per octant of its own point. A BeeNode is a value
 * here; `children` is the source's dictionary from octant index to child.
 */
module ThreeDeeBee {
  import opened Outcomes

  datatype Point = Point(x: int, y: int, z: int)

  datatype BeeNode<I> = BeeNode(key: Point, item: I, subtreeSize: int, children: map<int, BeeNode<I>>)

  /** `BeeNode(key, item)`: the dataclass defaults, size 1 and no children. */
  function NewBeeNode<I>(key: Point, item: I): (r: BeeNode<I>)
    ensures r.key == key && r.item == item
    ensures r.subtreeSize == 1 && r.children == map[]
  {
    BeeNode(key, item, 1, map[])
  }

  /** 1 when the comparison holds, 0 otherwise. */
  function Bit(b: bool): int {
    if b then 1 else 0
  }

  /**
   * get_octant_idx_for_point: ORs 4, 2 and 1 into the index for x, y and z at or
   * above the node's coordinate.
   */
  function GetOctantIdxForPoint(key: Point, point: Point): (idx: int)
    ensures 0 <= idx < 8
    ensures idx == 4 * Bit(point.x >= key.x) + 2 * Bit(point.y >= key.y) + Bit(point.z >= key.z)
  {
    var idx: bv8 := 0;
    var idx := if point.x >= key.x then idx | 4 else idx;
    var idx := if point.y >= key.y then idx | 2 else idx;
    var idx := if point.z >= key.z then idx | 1 else idx;
    idx as int
  }

  /** Two points fall in the same octant of a node exactly when they compare alike on every axis. */
  lemma SameOctant(key: Point, p: Point, q: Point)
    ensures GetOctantIdxForPoint(key, p) == GetOctantIdxForPoint(key, q) <==>
      (p.x >= key.x <==> q.x >= key.x) && (p.y >= key.y <==> q.y >= key.y) && (p.z >= key.z <==> q.z >= key.z)
  {
  }

  // ---------------------------------------------------------------------------
  // The abstract view of a tree

  /** The stored size of the child in slot i, 0 for an empty slot. */
  function SlotSize<I>(children: map<int, BeeNode<I>>, i: int): int {
    if i in children then children[i].subtreeSize else 0
  }

  /** The sum of the stored sizes of the children in slots i..7. */
  function SumSizes<I>(children: map<int, BeeNode<I>>, i: int): int
    requires 0 <= i <= 8
    decreases 8 - i
  {
    if i == 8 then 0 else SlotSize(children, i) + SumSizes(children, i + 1)
  }

  /** The number of nodes. */
  ghost function Count<I>(n: BeeNode<I>): nat
    decreases n, 9
  {
    1 + CountFrom(n, 0)
  }

  /** The number of nodes below the children in slots i..7. */
  ghost function CountFrom<I>(n: BeeNode<I>, i: int): nat
    requires 0 <= i <= 8
    decreases n, 8 - i
  {
    if i == 8 then 0
    else (if i in n.children then Count(n.children[i]) else 0) + CountFrom(n, i + 1)
  }

  /** The points stored in a subtree. */
  ghost function Keys<I>(n: BeeNode<I>): set<Point>
    decreases n
  {
    {n.key} + set i, q | i in n.children && q in Keys(n.children[i]) :: q
  }

  /**
   * The tree invariant, at every node: children sit in slots 0..7; subtree_size is
   * 1 + the children's sizes; each point below slot i lies in octant i of the node;
   * the node's own point is stored nowhere below it.
   */
  ghost predicate WellFormed<I>(n: BeeNode<I>)
    decreases n
  {
    (forall i :: i in n.children ==> 0 <= i < 8) &&
    n.subtreeSize == 1 + SumSizes(n.children, 0) &&
    (forall i :: i in n.children ==> WellFormed(n.children[i])) &&
    (forall i, q :: i in n.children && q in Keys(n.children[i]) ==> GetOctantIdxForPoint(n.key, q) == i) &&
    (forall i :: i in n.children ==> n.key !in Keys(n.children[i]))
  }

  /** The stored points are the node's own and those below its children. */
  lemma KeysMember<I>(n: BeeNode<I>, q: Point)
    ensures q in Keys(n) <==> q == n.key || exists i :: i in n.children && q in Keys(n.children[i])
  {
  }

  /** A point other than the node's own lies below slot i exactly when it is in the child there. */
  lemma {:induction false} KeysBelow<I>(n: BeeNode<I>, q: Point)
    requires WellFormed(n) && q in Keys(n) && q != n.key
    ensures GetOctantIdxForPoint(n.key, q) in n.children
    ensures q in Keys(n.children[GetOctantIdxForPoint(n.key, q)])
  {
    var i, r :| i in n.children && r in Keys(n.children[i]) && r == q;
  }

  // ---------------------------------------------------------------------------
  // get_child_for_key, is_leaf

  /**
   * get_child_for_key: the child in the point's octant slot, or None. In a well-formed
   * node, that child holds every stored point of that octant other than the node's own.
   */
  function GetChildForKey<I>(node: BeeNode<I>, point: Point): (r: Option<BeeNode<I>>)
    ensures r.Some? <==> GetOctantIdxForPoint(node.key, point) in node.children
    ensures r.Some? ==> r.value == node.children[GetOctantIdxForPoint(node.key, point)]
    ensures WellFormed(node) ==> forall q :: q in Keys(node) && q != node.key ==>
      (GetOctantIdxForPoint(node.key, q) == GetOctantIdxForPoint(node.key, point) <==> r.Some? && q in Keys(r.value))
    ensures WellFormed(node) && r.Some? ==> Keys(r.value) <= Keys(node) && node.key !in Keys(r.value)
  {
    var idx := GetOctantIdxForPoint(node.key, point);
    assert WellFormed(node) ==> forall q :: q in Keys(node) && q != node.key ==>
      (GetOctantIdxForPoint(node.key, q) == idx <==> idx in node.children && q in Keys(node.children[idx])) by {
      if WellFormed(node) {
        forall q | q in Keys(node) && q != node.key
          ensures GetOctantIdxForPoint(node.key, q) == idx <==> idx in node.children && q in Keys(node.children[idx])
        {
          KeysBelow(node, q);
        }
      }
    }
    assert idx in node.children ==> Keys(node.children[idx]) <= Keys(node) by {
      if idx in node.children {
        forall q | q in Keys(node.children[idx]) ensures q in Keys(node) { KeysMember(node, q); }
      }
    }
    if idx in node.children then Some(node.children[idx]) else None
  }

  /** is_leaf: no child in any octant, which in a well-formed node means it is alone in its subtree. */
  function IsLeaf<I>(current: BeeNode<I>): (b: bool)
    ensures WellFormed(current) ==> (b <==> Count(current) == 1)
  {
    assert WellFormed(current) ==> (|current.children| == 0 <==> Count(current) == 1) by {
      if WellFormed(current) { LeafAlone(current); }
    }
    |current.children| == 0
  }

  lemma {:induction false} LeafAlone<I>(n: BeeNode<I>)
    requires WellFormed(n)
    ensures |n.children| == 0 <==> Count(n) == 1
  {
    if |n.children| == 0 {
      assert n.children == map[];
      CountFromEmpty(n, 0);
    }
    if Count(n) == 1 {
      CountFromZero(n, 0);
      assert forall k :: k !in n.children;
      assert n.children == map[];
    }
  }

  lemma {:induction false} CountFromZero<I>(n: BeeNode<I>, i: int)
    requires 0 <= i <= 8 && CountFrom(n, i) == 0
    ensures forall j :: i <= j < 8 ==> j !in n.children
    decreases 8 - i
  {
    if i < 8 {
      CountFromZero(n, i + 1);
    }
  }

  lemma {:induction false} CountFromEmpty<I>(n: BeeNode<I>, i: int)
    requires 0 <= i <= 8 && n.children == map[]
    ensures CountFrom(n, i) == 0
    decreases 8 - i
  {
    if i < 8 {
      CountFromEmpty(n, i + 1);
    }
  }

  // ---------------------------------------------------------------------------
  // Lookup along the octant chain

  /** The node holding `p` found by following the octant chain from `n`, as get_tree_node_by_key does. */
  function Find<I>(n: BeeNode<I>, p: Point): (r: Option<BeeNode<I>>)
    ensures r.Some? ==> r.value.key == p
    decreases n
  {
    var idx := GetOctantIdxForPoint(n.key, p);
    if n.key == p then Some(n)
    else if idx in n.children then Find(n.children[idx], p)
    else None
  }

  /** The item stored under `p`, as `tree[p]` returns it. */
  function Get<I>(n: BeeNode<I>, p: Point): (r: Option<I>)
    ensures WellFormed(n) ==> (r.Some? <==> p in Keys(n))
  {
    assert WellFormed(n) ==> (Find(n, p).Some? <==> p in Keys(n)) by {
      if WellFormed(n) { FindComplete(n, p); }
    }
    match Find(n, p)
    case Some(m) => Some(m.item)
    case None => None
  }

  /** In a well-formed tree, following the octant chain finds exactly the stored points. */
  lemma {:induction false} FindComplete<I>(n: BeeNode<I>, p: Point)
    requires WellFormed(n)
    ensures Find(n, p).Some? <==> p in Keys(n)
    decreases n
  {
    if n.key != p {
      var idx := GetOctantIdxForPoint(n.key, p);
      if p in Keys(n) {
        KeysBelow(n, p);
        FindComplete(n.children[idx], p);
      } else if idx in n.children {
        FindComplete(n.children[idx], p);
      }
    }
  }

  // ---------------------------------------------------------------------------
  // Insert: __setitem__ / insert_aux on a non-empty subtree

  /**
   * insert_aux for a present node: the node's own point has its item replaced; otherwise
   * the point goes into the child of its octant, or becomes a new leaf in an empty slot.
   * The size is then recomputed from the children.
   */
  function InsertAux<I>(current: BeeNode<I>, key: Point, item: I): (r: BeeNode<I>)
    ensures r.key == current.key
    ensures r.subtreeSize == 1 + SumSizes(r.children, 0)
    decreases current
  {
    var idx := GetOctantIdxForPoint(current.key, key);
    var newItem := if current.key == key then item else current.item;
    var children :=
      if current.key == key then current.children
      else if idx in current.children then current.children[idx := InsertAux(current.children[idx], key, item)]
      else current.children[idx := NewBeeNode(key, item)];
    BeeNode(current.key, newItem, 1 + SumSizes(children, 0), children)
  }

  /** After an insert the point maps to the new item and every other point keeps its own. */
  lemma {:induction false} InsertGet<I>(t: BeeNode<I>, p: Point, v: I, q: Point)
    ensures Get(InsertAux(t, p, v), q) == if q == p then Some(v) else Get(t, q)
    decreases t
  {
    var t2 := InsertAux(t, p, v);
    var idx := GetOctantIdxForPoint(t.key, p);
    var qi := GetOctantIdxForPoint(t.key, q);
    assert t2.key == t.key;
    if t.key == q {
      assert Find(t2, q) == Some(t2);
    } else if t.key == p {
      assert t2.children == t.children;
      assert Find(t2, q) == Find(t, q);
    } else if idx in t.children {
      if qi == idx {
        InsertGet(t.children[idx], p, v, q);
        assert Find(t2, q) == Find(InsertAux(t.children[idx], p, v), q);
      } else {
        assert Find(t2, q) == Find(t, q);
      }
    } else {
      if qi == idx {
        var leaf := NewBeeNode(p, v);
        assert t2.children[idx] == leaf;
        assert Find(t2, q) == Find(leaf, q);
        assert Find(t, q) == None;
      } else {
        assert Find(t2, q) == Find(t, q);
      }
    }
  }

  /** Insert adds the point to the stored set and nothing else. */
  lemma {:induction false} InsertKeys<I>(t: BeeNode<I>, p: Point, v: I)
    ensures Keys(InsertAux(t, p, v)) == Keys(t) + {p}
    decreases t
  {
    var idx := GetOctantIdxForPoint(t.key, p);
    var t2 := InsertAux(t, p, v);
    if t.key != p {
      var leaf := NewBeeNode(p, v);
      if idx in t.children {
        InsertKeys(t.children[idx], p, v);
      } else {
        KeysMember(leaf, p);
        assert Keys(leaf) == {p} by {
          forall q ensures q in Keys(leaf) <==> q == p { KeysMember(leaf, q); }
        }
      }
      assert Keys(t2.children[idx]) == (if idx in t.children then Keys(t.children[idx]) else {}) + {p};
      forall q ensures q in Keys(t2) <==> q in Keys(t) + {p} {
        KeysMember(t2, q);
        KeysMember(t, q);
        if q in Keys(t2) && q != t.key {
          var i :| i in t2.children && q in Keys(t2.children[i]);
          if i != idx { assert q in Keys(t.children[i]); }
        }
        if q in Keys(t) && q != t.key && q != p {
          var i :| i in t.children && q in Keys(t.children[i]);
          if i == idx { assert q in Keys(t2.children[idx]); } else { assert t2.children[i] == t.children[i]; }
        }
        if q == p {
          assert q in Keys(t2.children[idx]);
        }
      }
    }
  }

  /** Replacing the child in one slot changes the sum of sizes by the difference in that slot. */
  lemma {:induction false} SumSizesUpdate<I>(m: map<int, BeeNode<I>>, idx: int, c: BeeNode<I>, i: int)
    requires 0 <= i <= 8 && 0 <= idx < 8
    ensures SumSizes(m[idx := c], i) ==
      SumSizes(m, i) + (if i <= idx then c.subtreeSize - SlotSize(m, idx) else 0)
    decreases 8 - i
  {
    if i < 8 {
      SumSizesUpdate(m, idx, c, i + 1);
    }
  }

  /** In a well-formed tree the stored size of every node is its number of nodes. */
  lemma {:induction false} SizeIsCount<I>(n: BeeNode<I>)
    requires WellFormed(n)
    ensures n.subtreeSize == Count(n)
    decreases n, 9
  {
    SumIsCountFrom(n, 0);
  }

  lemma {:induction false} SumIsCountFrom<I>(n: BeeNode<I>, i: int)
    requires WellFormed(n) && 0 <= i <= 8
    ensures SumSizes(n.children, i) == CountFrom(n, i)
    decreases n, 8 - i
  {
    if i < 8 {
      if i in n.children {
        SizeIsCount(n.children[i]);
      }
      SumIsCountFrom(n, i + 1);
    }
  }

  /** A new point grows the insertion path's stored sizes by one; an existing point leaves them alone. */
  lemma {:induction false} InsertSize<I>(t: BeeNode<I>, p: Point, v: I)
    requires WellFormed(t)
    ensures InsertAux(t, p, v).subtreeSize == t.subtreeSize + (if p in Keys(t) then 0 else 1)
    decreases t
  {
    if t.key != p {
      var idx := GetOctantIdxForPoint(t.key, p);
      var t2 := InsertAux(t, p, v);
      SumSizesUpdate(t.children, idx, t2.children[idx], 0);
      KeysMember(t, p);
      if idx in t.children {
        InsertSize(t.children[idx], p, v);
        if p in Keys(t) { KeysBelow(t, p); }
      } else {
        if p in Keys(t) { KeysBelow(t, p); }
      }
    }
  }

  /** Insert keeps the tree invariant: octant placement, sizes, and no repeated point. */
  lemma {:induction false} InsertWellFormed<I>(t: BeeNode<I>, p: Point, v: I)
    requires WellFormed(t)
    ensures WellFormed(InsertAux(t, p, v))
    decreases t
  {
    var t2 := InsertAux(t, p, v);
    if t.key == p {
      assert t2.children == t.children;
    } else {
      var idx := GetOctantIdxForPoint(t.key, p);
      var c2 := t2.children[idx];
      var old_ := if idx in t.children then Keys(t.children[idx]) else {};
      if idx in t.children {
        InsertWellFormed(t.children[idx], p, v);
        InsertKeys(t.children[idx], p, v);
      } else {
        NewBeeNodeFacts(p, v);
      }
      assert Keys(c2) == old_ + {p};
      assert WellFormed(c2);
      ChildReplaced(t, idx, c2);
    }
  }

  /**
   * The node invariant survives replacing the child in one slot by a well-formed node whose
   * points are the old child's plus one, all of that slot's octant and none the node's own.
   */
  lemma {:induction false} ChildReplaced<I>(t: BeeNode<I>, idx: int, c2: BeeNode<I>)
    requires WellFormed(t) && 0 <= idx < 8 && WellFormed(c2)
    requires forall q :: q in Keys(c2) ==> GetOctantIdxForPoint(t.key, q) == idx
    requires t.key !in Keys(c2)
    ensures var t2 := BeeNode(t.key, t.item, 1 + SumSizes(t.children[idx := c2], 0), t.children[idx := c2]);
      WellFormed(t2)
  {
    var m := t.children[idx := c2];
    var t2 := BeeNode(t.key, t.item, 1 + SumSizes(m, 0), m);
    assert forall i :: i in m ==> 0 <= i < 8;
    assert forall i :: i in m ==> WellFormed(m[i]);
    assert forall i, q :: i in m && q in Keys(m[i]) ==> GetOctantIdxForPoint(t2.key, q) == i;
    assert forall i :: i in m ==> t2.key !in Keys(m[i]);
  }

  /** Same points, sizes and child slots everywhere; only items may differ. */
  ghost predicate SameShape<I>(a: BeeNode<I>, b: BeeNode<I>)
    decreases a
  {
    a.key == b.key && a.subtreeSize == b.subtreeSize && a.children.Keys == b.children.Keys &&
    forall i :: i in a.children ==> SameShape(a.children[i], b.children[i])
  }

  lemma {:induction false} SameShapeRefl<I>(a: BeeNode<I>)
    ensures SameShape(a, a)
    decreases a
  {
    forall i | i in a.children ensures SameShape(a.children[i], a.children[i]) {
      SameShapeRefl(a.children[i]);
    }
  }

  /** Re-inserting a stored point changes no point, child slot or size: only that point's item. */
  lemma {:induction false} ReinsertSameShape<I>(t: BeeNode<I>, p: Point, v: I)
    requires WellFormed(t) && p in Keys(t)
    ensures SameShape(InsertAux(t, p, v), t)
    decreases t
  {
    var t2 := InsertAux(t, p, v);
    InsertSize(t, p, v);
    forall i | i in t.children && (t.key == p || i != GetOctantIdxForPoint(t.key, p))
      ensures SameShape(t.children[i], t.children[i])
    {
      SameShapeRefl(t.children[i]);
    }
    if t.key != p {
      var idx := GetOctantIdxForPoint(t.key, p);
      KeysBelow(t, p);
      ReinsertSameShape(t.children[idx], p, v);
    }
  }

  /** A point not yet stored ends up in a fresh leaf at the end of its octant chain. */
  lemma {:induction false} InsertNewLeaf<I>(t: BeeNode<I>, p: Point, v: I)
    requires p !in Keys(t)
    ensures Find(InsertAux(t, p, v), p) == Some(NewBeeNode(p, v))
    decreases t
  {
    var idx := GetOctantIdxForPoint(t.key, p);
    var t2 := InsertAux(t, p, v);
    if idx in t.children {
      KeysMember(t, p);
      InsertNewLeaf(t.children[idx], p, v);
      assert Find(t2, p) == Find(t2.children[idx], p);
    } else {
      assert Find(t2, p) == Find(NewBeeNode(p, v), p);
    }
  }

  /** Insert adds exactly one node for a new point and none for an existing one. */
  lemma {:induction false} InsertCount<I>(t: BeeNode<I>, p: Point, v: I)
    requires WellFormed(t)
    ensures Count(InsertAux(t, p, v)) == Count(t) + (if p in Keys(t) then 0 else 1)
  {
    InsertSize(t, p, v);
    InsertWellFormed(t, p, v);
    SizeIsCount(t);
    SizeIsCount(InsertAux(t, p, v));
  }

  /** A fresh node is a well-formed tree holding only its own point. */
  lemma NewBeeNodeFacts<I>(p: Point, v: I)
    ensures WellFormed(NewBeeNode(p, v))
    ensures Keys(NewBeeNode(p, v)) == {p}
    ensures Count(NewBeeNode(p, v)) == 1
    ensures forall q :: Get(NewBeeNode(p, v), q) == if q == p then Some(v) else None
  {
    var n := NewBeeNode(p, v);
    assert SumSizes(n.children, 0) == 0;
    CountFromEmpty(n, 0);
    forall q ensures q in Keys(n) <==> q == p { KeysMember(n, q); }
  }

  // ---------------------------------------------------------------------------
  // ThreeDeeBeeTree

  /**
   * The tree object: an optional root and the `length` counter. `length` is raised only when
   * the root itself is created (insert_aux on None), so it is 0 or 1 whatever the number of points.
   */
  class ThreeDeeBeeTree<I> {
    var root: Option<BeeNode<I>>
    var length: int

    /** The root is well formed and `length` is what the source's updates leave in it. */
    ghost predicate Valid()
      reads this
    {
      (root.Some? ==> WellFormed(root.value)) && length == (if root.None? then 0 else 1)
    }

    /** The stored points. */
    ghost function Points(): set<Point>
      reads this
    {
      if root.None? then {} else Keys(root.value)
    }

    /** The number of nodes. */
    ghost function Size(): nat
      reads this
    {
      if root.None? then 0 else Count(root.value)
    }

    /** What `tree[q]` yields: the item stored under q, or None for a KeyError. */
    ghost function Lookup(q: Point): Option<I>
      reads this
    {
      if root.None? then None else Get(root.value, q)
    }

    /** __init__: an empty tree. */
    constructor ()
      ensures Valid() && Points() == {} && Size() == 0 && length == 0
      ensures forall q :: Lookup(q) == None
    {
      root := None;
      length := 0;
    }

    /** is_empty: `length` is zero, which happens exactly when there is no root. */
    function IsEmpty(): (b: bool)
      reads this
      ensures Valid() ==> (b <==> root.None? && Points() == {})
    {
      Len() == 0
    }

    /** __len__: the counter, which on a valid tree is 1 as soon as any point is stored. */
    function Len(): (r: int)
      reads this
      ensures Valid() ==> r == (if Points() == {} then 0 else 1)
    {
      assert root.Some? ==> root.value.key in Points() by {
        if root.Some? { KeysMember(root.value, root.value.key); }
      }
      length
    }

    /**
     * get_tree_node_by_key: walks down the octant chain from the root; KeyError on an empty
     * tree or an empty slot. On a well-formed tree it succeeds exactly for the stored points.
     */
    method GetTreeNodeByKey(key: Point) returns (r: Result<BeeNode<I>>)
      ensures r.Ok? <==> root.Some? && Find(root.value, key).Some?
      ensures r.Ok? ==> r.value == Find(root.value, key).value && r.value.key == key
      ensures r.Err? ==> r.error == KeyError
      ensures Valid() ==> (r.Ok? <==> key in Points())
    {
      if root.None? {
        return Err(KeyError);
      }
      if Valid() {
        FindComplete(root.value, key);
      }
      var node := root.value;
      while true
        invariant Find(node, key) == Find(root.value, key)
        decreases node
      {
        var idx := GetOctantIdxForPoint(node.key, key);
        if node.key == key {
          return Ok(node);
        } else if idx in node.children {
          node := node.children[idx];
        } else {
          return Err(KeyError);
        }
      }
    }

    /** __getitem__: the item stored under the point, or KeyError. */
    method GetItem(key: Point) returns (r: Result<I>)
      ensures r.Ok? <==> Lookup(key).Some?
      ensures r.Ok? ==> r.value == Lookup(key).value
      ensures r.Err? ==> r.error == KeyError
      ensures Valid() ==> (r.Ok? <==> key in Points())
    {
      var n := GetTreeNodeByKey(key);
      match n
      case Ok(node) => return Ok(node.item);
      case Err(e) => return Err(e);
    }

    /** __contains__: whether the lookup succeeds, i.e. the point is stored. */
    method Contains(key: Point) returns (b: bool)
      ensures b <==> Lookup(key).Some?
      ensures Valid() ==> (b <==> key in Points())
    {
      var n := GetTreeNodeByKey(key);
      b := n.Ok?;
    }

    /**
     * __setitem__: insert_aux from the root. The point is stored with the item, every other
     * point keeps its item, the shape stays well formed, and `length` rises only if there
     * was no root.
     */
    method SetItem(key: Point, item: I)
      requires Valid()
      modifies this
      ensures root == Some(if old(root).None? then NewBeeNode(key, item) else InsertAux(old(root).value, key, item))
      ensures length == old(length) + (if old(root).None? then 1 else 0)
      ensures Valid()
      ensures Points() == old(Points()) + {key}
      ensures Size() == old(Size()) + (if key in old(Points()) then 0 else 1)
      ensures forall q :: Lookup(q) == if q == key then Some(item) else old(Lookup(q))
    {
      if root.None? {
        length := length + 1;
        root := Some(NewBeeNode(key, item));
        NewBeeNodeFacts(key, item);
      } else {
        var t := root.value;
        InsertWellFormed(t, key, item);
        InsertKeys(t, key, item);
        InsertCount(t, key, item);
        forall q ensures Get(InsertAux(t, key, item), q) == if q == key then Some(item) else Get(t, q) {
          InsertGet(t, key, item, q);
        }
        root := Some(InsertAux(t, key, item));
      }
    }

    /**
     * __setitem__ with `length` raised for every new point, as __len__ promises: a tree whose
     * counter equals its number of nodes keeps that property.
     */
    method SetItemCounted(key: Point, item: I)
      requires root.Some? ==> WellFormed(root.value)
      modifies this
      ensures root == Some(if old(root).None? then NewBeeNode(key, item) else InsertAux(old(root).value, key, item))
      ensures length == old(length) + (if key in old(Points()) then 0 else 1)
      ensures WellFormed(root.value)
      ensures Points() == old(Points()) + {key}
      ensures old(length == Size()) ==> length == Size()
      ensures forall q :: Lookup(q) == if q == key then Some(item) else old(Lookup(q))
    {
      var present := Contains(key);
      if root.Some? { FindComplete(root.value, key); }
      if root.None? {
        root := Some(NewBeeNode(key, item));
        NewBeeNodeFacts(key, item);
      } else {
        var t := root.value;
        InsertWellFormed(t, key, item);
        InsertKeys(t, key, item);
        InsertCount(t, key, item);
        forall q ensures Get(InsertAux(t, key, item), q) == if q == key then Some(item) else Get(t, q) {
          InsertGet(t, key, item, q);
        }
        root := Some(InsertAux(t, key, item));
      }
      length := length + (if present then 0 else 1);
    }
  }

  // ---------------------------------------------------------------------------
  // The module's own example

  /** The four points the module's example inserts, in order, as nested insert_aux calls. */
  function ExampleTree(): BeeNode<string> {
    var t1 := NewBeeNode(Point(3, 3, 3), "A");
    var t2 := InsertAux(t1, Point(1, 5, 2), "B");
    var t3 := InsertAux(t2, Point(4, 3, 1), "C");
    InsertAux(t3, Point(5, 4, 0), "D")
  }

  /** (4, 3, 1) sits in octant 6 of the root, and (5, 4, 0) lands below it, so that child has size 2. */
  lemma ExampleChildSize()
    ensures GetChildForKey(ExampleTree(), Point(4, 3, 1)) ==
      Some(BeeNode(Point(4, 3, 1), "C", 2, map[6 := NewBeeNode(Point(5, 4, 0), "D")]))
    ensures ExampleTree().subtreeSize == 4
  {
    var t1 := NewBeeNode(Point(3, 3, 3), "A");
    var t2 := InsertAux(t1, Point(1, 5, 2), "B");
    var t3 := InsertAux(t2, Point(4, 3, 1), "C");
    assert GetOctantIdxForPoint(Point(3, 3, 3), Point(1, 5, 2)) == 2;
    assert GetOctantIdxForPoint(Point(3, 3, 3), Point(4, 3, 1)) == 6;
    assert GetOctantIdxForPoint(Point(3, 3, 3), Point(5, 4, 0)) == 6;
    assert GetOctantIdxForPoint(Point(4, 3, 1), Point(5, 4, 0)) == 6;
    assert t2.children.Keys == {2};
    assert t3.children.Keys == {2, 6};
    var c := NewBeeNode(Point(4, 3, 1), "C");
    assert t3.children[6] == c;
    var c2 := InsertAux(c, Point(5, 4, 0), "D");
    assert c2.children == map[6 := NewBeeNode(Point(5, 4, 0), "D")];
    assert SumSizes(c2.children, 0) == 1;
    assert ExampleTree().children[6] == c2;
  }

  /** Four assignments on a fresh tree object, whatever the points: `length` ends at 1. */
  method ExampleBuild(p1: Point, p2: Point, p3: Point, p4: Point) returns (tdbt: ThreeDeeBeeTree<string>)
    ensures tdbt.root == Some(InsertAux(InsertAux(InsertAux(NewBeeNode(p1, "A"), p2, "B"), p3, "C"), p4, "D")) && tdbt.length == 1
  {
    tdbt := new ThreeDeeBeeTree<string>();
    tdbt.SetItem(p1, "A");
    tdbt.SetItem(p2, "B");
    tdbt.SetItem(p3, "C");
    tdbt.SetItem(p4, "D");
  }

  /**
   * The example run on the object: the child of the octant of (4, 3, 1) has size 2, and
   * __len__ answers 1 although the root's stored size counts four nodes.
   */
  method Example() returns (childSize: int, len: int, size: int)
    ensures childSize == 2 && len == 1 && size == 4
  {
    var tdbt := ExampleBuild(Point(3, 3, 3), Point(1, 5, 2), Point(4, 3, 1), Point(5, 4, 0));
    var r := tdbt.root.value;
    ExampleChildSize();
    var c := GetChildForKey(r, Point(4, 3, 1));
    childSize := c.value.subtreeSize;
    len := tdbt.Len();
    size := r.subtreeSize;
  }
}
