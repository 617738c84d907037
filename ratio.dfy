/**
 * The percentile store of ratio.py: one binary search tree whose items are their own keys,
 * and the rank-band query built on two rank lookups and a pruned in-order walk.
 */
module Ratio {
  import opened Outcomes
  import opened Bst

  /** ceil(a / 100), computed exactly (Dafny's `/` on int rounds toward minus infinity). */
  function CeilPercent(a: int): (c: int)
    ensures 100 * c - 100 < a <= 100 * c
  {
    -((-a) / 100)
  }

  /** The 1-indexed rank passed to kth_smallest for the lower boundary: ceil(x% of n) + 1. */
  function LowerRank(x: int, n: int): (r: int)
    ensures 100 * (r - 1) - 100 < x * n <= 100 * (r - 1)
  {
    CeilPercent(x * n) + 1
  }

  /** The 1-indexed rank for the upper boundary, mirrored from the top: n - ceil(y% of n). */
  function UpperRank(y: int, n: int): (r: int)
    ensures 100 * (n - r) - 100 < y * n <= 100 * (n - r)
  {
    (n - 1 - CeilPercent(y * n)) + 1
  }

  /**
   * The rank window a percentile query selects from the ascending sequence `s` of stored
   * values: ranks LowerRank..UpperRank, or nothing when either rank is outside 1..|s|.
   */
  function RankBand(s: seq<int>, x: int, y: int): (r: seq<int>)
    ensures |r| <= |s|
    ensures forall i :: 0 <= i < |r| ==> r[i] in s
  {
    Window(s, LowerRank(x, |s|), UpperRank(y, |s|))
  }

  /** Ranks lo..hi (1-indexed, inclusive) of `s`, or nothing when either rank is outside 1..|s|. */
  function Window(s: seq<int>, lo: int, hi: int): seq<int> {
    if 1 <= lo <= |s| && 1 <= hi <= |s| && lo <= hi then s[lo - 1..hi] else []
  }

  /** The elements of `s` lying in the closed interval [x, y], in their order in `s`. */
  function InRange(s: seq<int>, x: int, y: int): seq<int> {
    if s == [] then []
    else (if x <= s[0] <= y then [s[0]] else []) + InRange(s[1..], x, y)
  }

  lemma {:induction false} InRangeConcat(a: seq<int>, b: seq<int>, x: int, y: int)
    ensures InRange(a + b, x, y) == InRange(a, x, y) + InRange(b, x, y)
  {
    if a != [] {
      var c := a + b;
      assert c[0] == a[0] && c[1..] == a[1..] + b;
      InRangeConcat(a[1..], b, x, y);
      var head := if x <= a[0] <= y then [a[0]] else [];
      assert InRange(c, x, y) == head + (InRange(a[1..], x, y) + InRange(b, x, y));
      AppendAssoc3(head, InRange(a[1..], x, y), InRange(b, x, y));
    } else {
      assert a + b == b;
    }
  }

  lemma AppendAssoc3(p: seq<int>, q: seq<int>, r: seq<int>)
    ensures p + (q + r) == p + q + r
  {
  }

  lemma {:induction false} InRangeNone(s: seq<int>, x: int, y: int)
    requires forall i :: 0 <= i < |s| ==> s[i] < x || y < s[i]
    ensures InRange(s, x, y) == []
  {
    if s != [] {
      InRangeNone(s[1..], x, y);
    }
  }

  lemma {:induction false} InRangeAll(s: seq<int>, x: int, y: int)
    requires forall i :: 0 <= i < |s| ==> x <= s[i] <= y
    ensures InRange(s, x, y) == s
  {
    if s != [] {
      InRangeAll(s[1..], x, y);
    }
  }

  /** InRange keeps exactly the elements of `s` lying in [x, y]. */
  lemma {:induction false} InRangeMembers(s: seq<int>, x: int, y: int)
    ensures forall v :: v in InRange(s, x, y) <==> v in s && x <= v <= y
  {
    if s != [] {
      InRangeMembers(s[1..], x, y);
      assert s == [s[0]] + s[1..];
    }
  }

  /** InRange of an ascending sequence is ascending. */
  lemma {:induction false} InRangeIncreasing(s: seq<int>, x: int, y: int)
    requires StrictlyIncreasing(s)
    ensures StrictlyIncreasing(InRange(s, x, y))
  {
    if s != [] {
      var tail := s[1..];
      assert StrictlyIncreasing(tail) by {
        forall i, j | 0 <= i < j < |tail| ensures tail[i] < tail[j] {
          assert tail[i] == s[i + 1] && tail[j] == s[j + 1];
        }
      }
      InRangeIncreasing(tail, x, y);
      InRangeMembers(tail, x, y);
      var rest := InRange(tail, x, y);
      forall v | v in rest ensures s[0] < v {
        var m :| 0 <= m < |tail| && tail[m] == v;
        assert s[m + 1] == v;
      }
      var r := InRange(s, x, y);
      if x <= s[0] <= y {
        assert r == [s[0]] + rest;
        forall i, j | 0 <= i < j < |r| ensures r[i] < r[j] {
          assert r[j] == rest[j - 1];
          if i > 0 { assert r[i] == rest[i - 1]; } else { assert rest[j - 1] in rest; }
        }
      } else {
        assert r == rest;
      }
    }
  }

  /**
   * What aux_ratio appends on a BST: the stored keys lying in [x, y], each once, in
   * strictly ascending order.
   */
  lemma {:induction false} WalkKeys(t: Tree<int>, x: int, y: int)
    requires Ordered(t)
    ensures StrictlyIncreasing(InRange(InOrder(t), x, y))
    ensures forall v :: v in InRange(InOrder(t), x, y) <==> v in Keys(t) && x <= v <= y
  {
    InOrderFacts(t);
    InRangeIncreasing(InOrder(t), x, y);
    InRangeMembers(InOrder(t), x, y);
  }

  /**
   * In an ascending sequence, the values between the elements of ranks lo and hi are
   * exactly the ranks lo..hi (nothing when lo > hi).
   */
  lemma {:induction false} InRangeWindow(s: seq<int>, lo: int, hi: int)
    requires StrictlyIncreasing(s) && 1 <= lo <= |s| && 1 <= hi <= |s|
    ensures InRange(s, s[lo - 1], s[hi - 1]) == if lo <= hi then s[lo - 1..hi] else []
  {
    var x, y := s[lo - 1], s[hi - 1];
    if lo <= hi {
      var pre, mid, post := s[..lo - 1], s[lo - 1..hi], s[hi..];
      assert s == pre + mid + post;
      forall i | 0 <= i < |pre| ensures pre[i] < x || y < pre[i] {
        assert pre[i] == s[i];
      }
      forall i | 0 <= i < |mid| ensures x <= mid[i] <= y {
        assert mid[i] == s[lo - 1 + i];
      }
      forall i | 0 <= i < |post| ensures post[i] < x || y < post[i] {
        assert post[i] == s[hi + i];
      }
      InRangeConcat(pre + mid, post, x, y);
      InRangeConcat(pre, mid, x, y);
      InRangeNone(pre, x, y);
      InRangeAll(mid, x, y);
      InRangeNone(post, x, y);
    } else {
      InRangeNone(s, x, y);
    }
  }

  /**
   * aux_ratio: the pruned in-order walk. It goes left only when x <= key, records the key
   * when x <= key <= y, and goes right only when key < y, appending to the accumulator.
   * On a BST the appended part is exactly the stored keys in [x, y], ascending.
   */
  method AuxRatio(current: Tree<int>, x: int, y: int, lst: seq<int>) returns (out: seq<int>)
    ensures Ordered(current) ==> out == lst + InRange(InOrder(current), x, y)
    decreases current
  {
    out := lst;
    if current.Node? {
      var Node(k, _, l, r, _) := current;
      ghost var a, b, c: seq<int> := [], [], [];
      if x <= k {
        out := AuxRatio(l, x, y, out);
        a := InRange(InOrder(l), x, y);
      }
      assert Ordered(current) ==> out == lst + a;
      if k >= x && k <= y {
        out := out + [k];
        b := [k];
      }
      assert Ordered(current) ==> out == lst + a + b;
      if y > k {
        out := AuxRatio(r, x, y, out);
        c := InRange(InOrder(r), x, y);
      }
      if Ordered(current) {
        assert out == lst + a + b + c;
        InRangeAtNode(current, x, y);
        assert InRange(InOrder(current), x, y) == a + b + c;
        AppendAssoc(lst, a, b, c);
      }
    } else {
      assert InRange(InOrder(current), x, y) == [];
    }
  }

  lemma AppendAssoc(p: seq<int>, q: seq<int>, r: seq<int>, t: seq<int>)
    ensures p + q + r + t == p + (q + r + t)
  {
  }

  /** How the keys of a BST node in [x, y] split into the left subtree's, the node's and the right's. */
  lemma {:induction false} InRangeAtNode(t: Tree<int>, x: int, y: int)
    requires t.Node? && Ordered(t)
    ensures InRange(InOrder(t), x, y) ==
      (if x <= t.key then InRange(InOrder(t.left), x, y) else []) +
      (if x <= t.key <= y then [t.key] else []) +
      (if y > t.key then InRange(InOrder(t.right), x, y) else [])
  {
    var Node(k, _, l, r, _) := t;
    var a, b := InOrder(l), InOrder(r);
    InRangeConcat(a + [k], b, x, y);
    InRangeConcat(a, [k], x, y);
    assert InRange([k], x, y) == if x <= k <= y then [k] else [] by {
      assert [k][1..] == [];
    }
    if x > k {
      InOrderFacts(l);
      InRangeNone(a, x, y);
    }
    if y <= k {
      InOrderFacts(r);
      InRangeNone(b, x, y);
    }
  }

  /** Percentiles: owns one BinarySearchTree (`items`) in which every value is both key and item. */
  class Percentiles {
    var items: BinarySearchTree<int>

    ghost predicate Valid()
      reads this, items
    {
      items.Valid() && forall k :: k in Items(items.root) ==> Items(items.root)[k] == k
    }

    /** The stored values. */
    ghost function Values(): set<int>
      reads this, items
    {
      Keys(items.root)
    }

    constructor ()
      ensures Valid() && fresh(items) && Values() == {}
    {
      items := new BinarySearchTree<int>();
    }

    /** add_point: stores the value as key and item; a value already present raises ValueError. */
    method AddPoint(item: int) returns (o: Outcome)
      requires Valid()
      modifies items
      ensures Valid()
      ensures o.Fail? <==> item in old(Values())
      ensures o.Fail? ==> o.error == ValueError && items.root == old(items.root) && items.length == old(items.length)
      ensures o.Done? ==> Values() == old(Values()) + {item}
      ensures o.Done? ==>
        items.root == InsertAux(old(items.root), item, item).value && items.length == old(items.length) + 1
    {
      o := items.SetItem(item, item);
    }

    /** remove_point: deletes the value; an absent value raises ValueError. */
    method RemovePoint(item: int) returns (o: Outcome)
      requires Valid()
      modifies items
      ensures Valid()
      ensures o.Fail? <==> item !in old(Values())
      ensures o.Fail? ==> o.error == ValueError && items.root == old(items.root) && items.length == old(items.length)
      ensures o.Done? ==> Values() == old(Values()) - {item}
      ensures o.Done? ==>
        items.root == DeleteAux(old(items.root), item).value && items.length == old(items.length) - 1
    {
      o := items.DelItem(item);
      if o.Done? {
        ItemsDomain(items.root);
        ItemsDomain(old(items.root));
      }
    }

    /**
     * ratio(x, y): locates the values of the lower and upper boundary ranks with
     * kth_smallest, then collects every value between them with the pruned walk.
     * The result is the rank window of the ascending stored values.
     */
    method Ratio(x: int, y: int) returns (r: seq<int>)
      requires Valid()
      ensures r == RankBand(InOrder(items.root), x, y)
    {
      var n := items.Len();
      var thresholdXElement := CeilPercent(x * n);
      var thresholdYElement := n - 1 - CeilPercent(y * n);
      var thresholdX := KthSmallest(thresholdXElement + 1, items.root);
      var thresholdY := KthSmallest(thresholdYElement + 1, items.root);
      RatioLookups(items.root, x, y);
      if thresholdX.None? || thresholdY.None? {
        return [];
      }
      r := AuxRatio(items.root, thresholdX.value.item, thresholdY.value.item, []);
    }
  }

  /**
   * The lookups of ratio(x, y) at ranks LowerRank and UpperRank: when either finds nothing
   * the band is empty, otherwise the values found bound exactly the band.
   */
  lemma {:induction false} RatioLookups(t: Tree<int>, x: int, y: int)
    requires IsBst(t) && forall k :: k in Items(t) ==> Items(t)[k] == k
    ensures KthSmallest(LowerRank(x, Count(t)), t).None? || KthSmallest(UpperRank(y, Count(t)), t).None? ==>
      RankBand(InOrder(t), x, y) == []
    ensures KthSmallest(LowerRank(x, Count(t)), t).Some? && KthSmallest(UpperRank(y, Count(t)), t).Some? ==>
      InRange(InOrder(t), KthSmallest(LowerRank(x, Count(t)), t).value.item,
        KthSmallest(UpperRank(y, Count(t)), t).value.item) == RankBand(InOrder(t), x, y)
  {
    InOrderFacts(t);
    RankLookups(t, LowerRank(x, Count(t)), UpperRank(y, Count(t)));
  }

  /**
   * The two rank lookups of ratio(x, y) on a tree whose items are their keys: both succeed
   * exactly when both ranks lie in 1..n, and then the values they return bound exactly the
   * ranks lo..hi of the ascending keys.
   */
  lemma {:induction false} RankLookups(t: Tree<int>, lo: int, hi: int)
    requires IsBst(t) && forall k :: k in Items(t) ==> Items(t)[k] == k
    ensures KthSmallest(lo, t).Some? && KthSmallest(hi, t).Some? <==> 1 <= lo <= Count(t) && 1 <= hi <= Count(t)
    ensures KthSmallest(lo, t).None? || KthSmallest(hi, t).None? ==> Window(InOrder(t), lo, hi) == []
    ensures KthSmallest(lo, t).Some? && KthSmallest(hi, t).Some? ==>
      InRange(InOrder(t), KthSmallest(lo, t).value.item, KthSmallest(hi, t).value.item) == Window(InOrder(t), lo, hi)
  {
    var s := InOrder(t);
    InOrderFacts(t);
    var tx := KthSmallest(lo, t);
    var ty := KthSmallest(hi, t);
    if tx.Some? && ty.Some? {
      assert tx.value.item == s[lo - 1];
      assert ty.value.item == s[hi - 1];
      InRangeWindow(s, lo, hi);
    }
  }

  /** ratio(0, 0) selects every stored value, ascending. */
  lemma {:induction false} RatioWhole(s: seq<int>)
    ensures RankBand(s, 0, 0) == s
  {
  }

  /** An empty store yields an empty band, whatever the percentages. */
  lemma RatioOfEmpty(x: int, y: int)
    ensures RankBand([], x, y) == []
  {
  }

  /**
   * The points 4, 9, 14, 15, 16, 82, 87, 91, 92, 99, added in any order: ratio(0, 42)
   * is 4, 9, 14, 15, 16.
   */
  lemma {:induction false} RatioExample(t: Tree<int>)
    requires IsBst(t) && Keys(t) == {4, 9, 14, 15, 16, 82, 87, 91, 92, 99}
    ensures RankBand(InOrder(t), 0, 42) == [4, 9, 14, 15, 16]
  {
    var sorted := ExamplePoints();
    InOrderFacts(t);
    ExamplePointsFacts();
    StrictlyIncreasingUnique(InOrder(t), sorted);
    ExampleBand();
  }

  function ExamplePoints(): seq<int> {
    [4, 9, 14, 15, 16, 82, 87, 91, 92, 99]
  }

  lemma ExamplePointsFacts()
    ensures StrictlyIncreasing(ExamplePoints())
    ensures forall x :: x in ExamplePoints() <==> x in {4, 9, 14, 15, 16, 82, 87, 91, 92, 99}
  {
    var sorted := ExamplePoints();
    forall i, j | 0 <= i < j < |sorted| ensures sorted[i] < sorted[j] {
      assert forall m :: 0 <= m < |sorted| - 1 ==> sorted[m] < sorted[m + 1];
      Increasing(sorted, i, j);
    }
  }

  lemma ExampleBand()
    ensures RankBand(ExamplePoints(), 0, 42) == [4, 9, 14, 15, 16]
  {
    assert UpperRank(42, 10) == 5;
  }

  /** Adjacent steps up compose. */
  lemma {:induction false} Increasing(s: seq<int>, i: int, j: int)
    requires forall m :: 0 <= m < |s| - 1 ==> s[m] < s[m + 1]
    requires 0 <= i < j < |s|
    ensures s[i] < s[j]
    decreases j - i
  {
    if i + 1 < j {
      Increasing(s, i + 1, j);
    }
  }
}
