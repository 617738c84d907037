/**
 * make_ordering of balancing.py: the x-coordinates go into a Percentiles store, the first
 * value of the band ratio(0, n) becomes the pivot, and the points are sorted stably by
 * their distance in x from that pivot.
 */
module Balancing {
  import opened Outcomes
  import opened Bst
  import opened Ratio
  import ThreeDeeBee

  type Point = ThreeDeeBee.Point

  /** The x-coordinates, in input order. */
  function Xs(points: seq<Point>): (xs: seq<int>)
    ensures |xs| == |points|
    ensures forall i :: 0 <= i < |points| ==> xs[i] == points[i].x
  {
    seq(|points|, i requires 0 <= i < |points| => points[i].x)
  }

  /** No value occurs twice. */
  ghost predicate Distinct(xs: seq<int>) {
    forall i, j :: 0 <= i < j < |xs| ==> xs[i] != xs[j]
  }

  /** The least value of a non-empty sequence. */
  function Min(xs: seq<int>): (m: int)
    requires |xs| > 0
    ensures m in xs
    ensures forall i :: 0 <= i < |xs| ==> m <= xs[i]
  {
    if |xs| == 1 then xs[0]
    else
      var rest := Min(xs[1..]);
      assert forall i :: 1 <= i < |xs| ==> xs[i] == xs[1..][i - 1];
      if xs[0] <= rest then xs[0] else rest
  }

  // ---------------------------------------------------------------------------
  // The sort of line 43: stable by |p.x - pivot|

  /** The sort key: the distance in x from the pivot. */
  function Distance(pivot: int, p: Point): (d: nat)
    ensures d == p.x - pivot || d == pivot - p.x
    ensures d == 0 <==> p.x == pivot
  {
    if p.x >= pivot then p.x - pivot else pivot - p.x
  }

  /** Ordered by non-decreasing distance from the pivot. */
  ghost predicate SortedBy(s: seq<Point>, pivot: int) {
    forall i, j :: 0 <= i < j < |s| ==> Distance(pivot, s[i]) <= Distance(pivot, s[j])
  }

  /** The points of `s` at distance k from the pivot, in their order in `s`. */
  ghost function WithKey(s: seq<Point>, pivot: int, k: int): seq<Point> {
    if s == [] then []
    else (if Distance(pivot, s[0]) == k then [s[0]] else []) + WithKey(s[1..], pivot, k)
  }

  /** Places x after every element whose distance is at most its own. */
  function InsertByDistance(r: seq<Point>, x: Point, pivot: int): (s: seq<Point>)
    ensures |s| == |r| + 1
    ensures forall z :: z in s <==> z == x || z in r
  {
    if r == [] || Distance(pivot, x) < Distance(pivot, r[0]) then [x] + r
    else
      assert r == [r[0]] + r[1..];
      [r[0]] + InsertByDistance(r[1..], x, pivot)
  }

  /**
   * `sorted(points, key=lambda p: abs(p[0] - pivot))` as a reference insertion sort:
   * the elements are inserted in input order, each behind the equal keys already placed.
   */
  function SortByDistance(s: seq<Point>, pivot: int): (t: seq<Point>)
    ensures |t| == |s|
    ensures forall z :: z in t <==> z in s
  {
    if s == [] then []
    else
      assert s == s[..|s| - 1] + [s[|s| - 1]];
      InsertByDistance(SortByDistance(s[..|s| - 1], pivot), s[|s| - 1], pivot)
  }

  lemma {:induction false} WithKeyConcat(a: seq<Point>, b: seq<Point>, pivot: int, k: int)
    ensures WithKey(a + b, pivot, k) == WithKey(a, pivot, k) + WithKey(b, pivot, k)
  {
    if a == [] {
      assert a + b == b;
    } else {
      var c := a + b;
      assert c[0] == a[0] && c[1..] == a[1..] + b;
      var head := if Distance(pivot, a[0]) == k then [a[0]] else [];
      WithKeyConcat(a[1..], b, pivot, k);
      calc {
        WithKey(c, pivot, k);
        head + WithKey(a[1..] + b, pivot, k);
        head + (WithKey(a[1..], pivot, k) + WithKey(b, pivot, k));
        (head + WithKey(a[1..], pivot, k)) + WithKey(b, pivot, k);
      }
    }
  }

  lemma {:induction false} WithKeyNone(s: seq<Point>, pivot: int, k: int)
    requires forall i :: 0 <= i < |s| ==> Distance(pivot, s[i]) != k
    ensures WithKey(s, pivot, k) == []
  {
    if s != [] {
      WithKeyNone(s[1..], pivot, k);
    }
  }

  /** Inserting adds exactly x. */
  lemma {:induction false} InsertMultiset(r: seq<Point>, x: Point, pivot: int)
    ensures multiset(InsertByDistance(r, x, pivot)) == multiset(r) + multiset{x}
  {
    if r != [] && Distance(pivot, x) >= Distance(pivot, r[0]) {
      InsertMultiset(r[1..], x, pivot);
      assert r == [r[0]] + r[1..];
    }
  }

  /** A bound on the distances of r and x bounds every distance after the insert. */
  lemma {:induction false} InsertLowerBound(r: seq<Point>, x: Point, pivot: int, b: int)
    requires forall i :: 0 <= i < |r| ==> b <= Distance(pivot, r[i])
    requires b <= Distance(pivot, x)
    ensures forall j :: 0 <= j < |InsertByDistance(r, x, pivot)| ==> b <= Distance(pivot, InsertByDistance(r, x, pivot)[j])
  {
    var out := InsertByDistance(r, x, pivot);
    if r == [] || Distance(pivot, x) < Distance(pivot, r[0]) {
      assert out == [x] + r;
    } else {
      InsertLowerBound(r[1..], x, pivot, b);
      var tail := InsertByDistance(r[1..], x, pivot);
      assert out == [r[0]] + tail;
      forall j | 0 <= j < |out| ensures b <= Distance(pivot, out[j]) {
        if j > 0 { assert out[j] == tail[j - 1]; }
      }
    }
  }

  /** Inserting into a sorted sequence keeps it sorted. */
  lemma {:induction false} InsertSorted(r: seq<Point>, x: Point, pivot: int)
    requires SortedBy(r, pivot)
    ensures SortedBy(InsertByDistance(r, x, pivot), pivot)
  {
    var out := InsertByDistance(r, x, pivot);
    if r == [] || Distance(pivot, x) < Distance(pivot, r[0]) {
      assert out == [x] + r;
      forall i, j | 0 <= i < j < |out| ensures Distance(pivot, out[i]) <= Distance(pivot, out[j]) {
        assert out[j] == r[j - 1];
        if i > 0 { assert out[i] == r[i - 1]; } else if j > 1 { assert Distance(pivot, r[0]) <= Distance(pivot, r[j - 1]); }
      }
    } else {
      var tail := InsertByDistance(r[1..], x, pivot);
      SortedTail(r, pivot);
      InsertSorted(r[1..], x, pivot);
      forall i | 0 <= i < |r[1..]| ensures Distance(pivot, r[0]) <= Distance(pivot, r[1..][i]) {
        assert r[1..][i] == r[i + 1];
      }
      InsertLowerBound(r[1..], x, pivot, Distance(pivot, r[0]));
      assert out == [r[0]] + tail;
      forall i, j | 0 <= i < j < |out| ensures Distance(pivot, out[i]) <= Distance(pivot, out[j]) {
        assert out[j] == tail[j - 1];
        if i > 0 { assert out[i] == tail[i - 1]; }
      }
    }
  }

  /** Inserting into a sorted sequence puts x last among the points at its distance. */
  lemma {:induction false} InsertWithKey(r: seq<Point>, x: Point, pivot: int, k: int)
    requires SortedBy(r, pivot)
    ensures WithKey(InsertByDistance(r, x, pivot), pivot, k) ==
      WithKey(r, pivot, k) + (if Distance(pivot, x) == k then [x] else [])
  {
    var out := InsertByDistance(r, x, pivot);
    var own := if Distance(pivot, x) == k then [x] else [];
    if r == [] {
      assert out == [x] && out[1..] == [];
      assert WithKey(out, pivot, k) == own + WithKey([], pivot, k);
    } else if Distance(pivot, x) < Distance(pivot, r[0]) {
      assert out == [x] + r && out[0] == x && out[1..] == r;
      assert WithKey(out, pivot, k) == own + WithKey(r, pivot, k);
      if Distance(pivot, x) == k {
        forall i | 0 <= i < |r| ensures Distance(pivot, r[i]) != k {
          if i > 0 { assert Distance(pivot, r[0]) <= Distance(pivot, r[i]); }
        }
        WithKeyNone(r, pivot, k);
      }
    } else {
      var tail := InsertByDistance(r[1..], x, pivot);
      SortedTail(r, pivot);
      InsertWithKey(r[1..], x, pivot, k);
      assert out == [r[0]] + tail && out[0] == r[0] && out[1..] == tail;
      var head := if Distance(pivot, r[0]) == k then [r[0]] else [];
      assert WithKey(out, pivot, k) == head + WithKey(tail, pivot, k);
      assert WithKey(r, pivot, k) == head + WithKey(r[1..], pivot, k);
      assert WithKey(tail, pivot, k) == WithKey(r[1..], pivot, k) + own;
    }
  }

  lemma {:induction false} SortedTail(r: seq<Point>, pivot: int)
    requires SortedBy(r, pivot) && r != []
    ensures SortedBy(r[1..], pivot)
  {
    forall i, j | 0 <= i < j < |r[1..]| ensures Distance(pivot, r[1..][i]) <= Distance(pivot, r[1..][j]) {
      assert r[1..][i] == r[i + 1] && r[1..][j] == r[j + 1];
    }
  }

  /**
   * The sort is a permutation of its input, ordered by distance from the pivot, and stable:
   * for every distance the points at that distance keep their input order.
   */
  lemma {:induction false} SortByDistanceCorrect(s: seq<Point>, pivot: int)
    ensures multiset(SortByDistance(s, pivot)) == multiset(s)
    ensures SortedBy(SortByDistance(s, pivot), pivot)
    ensures forall k :: WithKey(SortByDistance(s, pivot), pivot, k) == WithKey(s, pivot, k)
  {
    SortPermutes(s, pivot);
    SortSorted(s, pivot);
    forall k ensures WithKey(SortByDistance(s, pivot), pivot, k) == WithKey(s, pivot, k) {
      SortStable(s, pivot, k);
    }
  }

  lemma {:induction false} SortPermutes(s: seq<Point>, pivot: int)
    ensures multiset(SortByDistance(s, pivot)) == multiset(s)
  {
    if s != [] {
      var init, last := s[..|s| - 1], s[|s| - 1];
      SortPermutes(init, pivot);
      InsertMultiset(SortByDistance(init, pivot), last, pivot);
      assert s == init + [last];
    }
  }

  lemma {:induction false} SortSorted(s: seq<Point>, pivot: int)
    ensures SortedBy(SortByDistance(s, pivot), pivot)
  {
    if s != [] {
      SortSorted(s[..|s| - 1], pivot);
      InsertSorted(SortByDistance(s[..|s| - 1], pivot), s[|s| - 1], pivot);
    }
  }

  lemma {:induction false} SortStable(s: seq<Point>, pivot: int, k: int)
    ensures WithKey(SortByDistance(s, pivot), pivot, k) == WithKey(s, pivot, k)
  {
    if s != [] {
      var init, last := s[..|s| - 1], s[|s| - 1];
      var r := SortByDistance(init, pivot);
      SortStable(init, pivot, k);
      SortSorted(init, pivot);
      InsertWithKey(r, last, pivot, k);
      assert s == init + [last];
      WithKeyConcat(init, [last], pivot, k);
      assert [last][1..] == [];
      assert WithKey([last], pivot, k) == (if Distance(pivot, last) == k then [last] else []) + WithKey([], pivot, k);
    }
  }

  // ---------------------------------------------------------------------------
  // The pivot: the first value of ratio(0, n)

  /** With n distinct values the band ratio(0, n) is non-empty exactly when 2 <= n <= 98. */
  lemma BandNonEmpty(n: int)
    requires n >= 1
    ensures 1 <= UpperRank(n, n) <= n <==> 2 <= n <= 98
    ensures LowerRank(0, n) == 1
  {
    var c := CeilPercent(n * n);
    assert n * n - 100 * (n - 1) == (n - 1) * (n - 99) + 1;
    if 2 <= n <= 98 {
      assert (n - 1) * (99 - n) >= 1 by {
        assert n - 1 >= 1 && 99 - n >= 1;
        MulAtLeastOne(n - 1, 99 - n);
      }
      assert c <= n - 1;
    } else if n == 1 {
      assert c == 1;
    } else {
      assert (n - 1) * (n - 99) >= 0 by {
        assert n - 1 >= 0 && n - 99 >= 0;
        MulNonNegative(n - 1, n - 99);
      }
      assert c >= n;
    }
    assert n * n >= 0;
  }

  lemma MulAtLeastOne(a: int, b: int)
    requires a >= 1 && b >= 1
    ensures a * b >= 1
  {
    assert a * b == a * (b - 1) + a;
    MulNonNegative(a, b - 1);
  }

  lemma MulNonNegative(a: int, b: int)
    requires a >= 0 && b >= 0
    ensures a * b >= 0
  {
  }

  /**
   * The band ratio(0, n) of the ascending distinct values of xs: all but the top
   * ceil(n^2 / 100) values when 2 <= n <= 98, and empty otherwise. When it is non-empty
   * its first value is the least x.
   */
  lemma {:induction false} PivotIsMin(s: seq<int>, xs: seq<int>)
    requires StrictlyIncreasing(s) && |s| == |xs| >= 1
    requires forall v :: v in s <==> v in xs
    ensures RankBand(s, 0, |s|) != [] <==> 2 <= |s| <= 98
    ensures RankBand(s, 0, |s|) != [] ==> RankBand(s, 0, |s|)[0] == Min(xs)
  {
    BandNonEmpty(|s|);
    assert RankBand(s, 0, |s|) == Window(s, 1, UpperRank(|s|, |s|));
    WindowFromFirst(s, xs, UpperRank(|s|, |s|));
  }

  /** A window starting at rank 1 is non-empty exactly when its top rank is in range, and starts at the least value. */
  lemma {:induction false} WindowFromFirst(s: seq<int>, xs: seq<int>, hi: int)
    requires StrictlyIncreasing(s) && |s| == |xs| >= 1
    requires forall v :: v in s <==> v in xs
    ensures Window(s, 1, hi) != [] <==> 1 <= hi <= |s|
    ensures Window(s, 1, hi) != [] ==> Window(s, 1, hi)[0] == Min(xs)
  {
    var m := Min(xs);
    assert m in s;
    FirstIsLeast(s, m);
    FirstIn(s);
    assert s[0] in xs;
    var j :| 0 <= j < |xs| && xs[j] == s[0];
    assert m <= xs[j];
  }

  // ---------------------------------------------------------------------------
  // make_ordering

  /**
   * The loop of lines 28-30: a fresh Percentiles receives the x-coordinates in order. It
   * fails with ValueError, from the tree insert, exactly when some value repeats; otherwise
   * it holds every value once.
   */
  method AddAll(coordinateX: seq<int>) returns (percentiles: Percentiles, o: Outcome)
    ensures fresh(percentiles) && fresh(percentiles.items)
    ensures o.Fail? <==> !Distinct(coordinateX)
    ensures o.Fail? ==> o.error == ValueError
    ensures o.Done? ==> percentiles.Valid()
    ensures o.Done? ==> |percentiles.Values()| == |coordinateX|
    ensures o.Done? ==> percentiles.Values() == set j | 0 <= j < |coordinateX| :: coordinateX[j]
  {
    percentiles := new Percentiles();
    var i := 0;
    while i < |coordinateX|
      invariant 0 <= i <= |coordinateX|
      invariant fresh(percentiles.items)
      invariant percentiles.Valid()
      invariant percentiles.Values() == set j | 0 <= j < i :: coordinateX[j]
      invariant |percentiles.Values()| == i
      invariant Distinct(coordinateX[..i])
    {
      o := percentiles.AddPoint(coordinateX[i]);
      if o.Fail? {
        RepeatFound(coordinateX, i);
        return;
      }
      DistinctExtend(coordinateX, i);
      i := i + 1;
    }
    assert coordinateX[..i] == coordinateX;
    o := Done;
  }

  /** A prefix without repeats, collected in a set, grows by one new value. */
  lemma {:induction false} DistinctExtend(xs: seq<int>, i: int)
    requires 0 <= i < |xs| && Distinct(xs[..i])
    requires |set j | 0 <= j < i :: xs[j]| == i
    requires xs[i] !in set j | 0 <= j < i :: xs[j]
    ensures Distinct(xs[..i + 1])
    ensures (set j | 0 <= j < i + 1 :: xs[j]) == (set j | 0 <= j < i :: xs[j]) + {xs[i]}
    ensures |set j | 0 <= j < i + 1 :: xs[j]| == i + 1
  {
    var earlier := set j | 0 <= j < i :: xs[j];
    assert (set j | 0 <= j < i + 1 :: xs[j]) == earlier + {xs[i]};
    var grown := xs[..i + 1];
    forall a, b | 0 <= a < b < i + 1 ensures grown[a] != grown[b] {
      if b < i {
        assert xs[..i][a] == xs[a] && xs[..i][b] == xs[b];
      } else {
        assert grown[a] == xs[a] && grown[b] == xs[i];
        assert xs[a] in earlier;
      }
    }
  }

  /** A value already among the earlier ones is a repeat. */
  lemma RepeatFound(xs: seq<int>, i: int)
    requires 0 <= i < |xs| && xs[i] in set j | 0 <= j < i :: xs[j]
    ensures !Distinct(xs)
  {
    var j :| 0 <= j < i && xs[j] == xs[i];
  }

  /**
   * make_ordering as written. The empty list gives []. Otherwise every x-coordinate is
   * added to a fresh Percentiles; a repeated x raises ValueError from the tree insert. If all
   * are distinct the next statement reads `percentiles.store`, an attribute a Percentiles does
   * not have, so the call raises AttributeError before any ordering is produced.
   */
  method MakeOrdering(points: seq<Point>) returns (r: Result<seq<Point>>)
    ensures points == [] ==> r == Ok([])
    ensures points != [] && !Distinct(Xs(points)) ==> r == Err(ValueError)
    ensures points != [] && Distinct(Xs(points)) ==> r == Err(AttributeError)
  {
    if |points| == 0 {
      return Ok([]);
    }
    var percentiles, o := AddAll(Xs(points));
    if o.Fail? {
      return Err(o.error);
    }
    return Err(AttributeError);
  }

  /**
   * make_ordering with the store read as `percentiles.items`, the attribute the class has.
   * Distinct x-coordinates give the points sorted stably by distance from the least x when
   * 2 <= n <= 98, and [] for other n, where the band is empty.
   */
  method MakeOrderingFixed(points: seq<Point>) returns (r: Result<seq<Point>>)
    ensures points == [] ==> r == Ok([])
    ensures points != [] && !Distinct(Xs(points)) ==> r == Err(ValueError)
    ensures points != [] && Distinct(Xs(points)) ==>
      r == Ok(if 2 <= |points| <= 98 then SortByDistance(points, Min(Xs(points))) else [])
  {
    if |points| == 0 {
      return Ok([]);
    }
    var coordinateX := Xs(points);
    var percentiles, o := AddAll(coordinateX);
    if o.Fail? {
      return Err(o.error);
    }
    var n := percentiles.items.Len();
    if n != 0 {
      var rootXValues := percentiles.Ratio(0, n);
      PivotOfStore(percentiles, coordinateX);
      if |rootXValues| != 0 {
        var xRoot := rootXValues[0];
        r := Ok(SortByDistance(points, xRoot));
      } else {
        r := Ok([]);
      }
    } else {
      r := Ok([]);
    }
  }

  /** A store holding the distinct values of xs: its band ratio(0, n) and the pivot taken from it. */
  lemma {:induction false} PivotOfStore(percentiles: Percentiles, xs: seq<int>)
    requires percentiles.Valid() && |xs| >= 1 && |percentiles.Values()| == |xs|
    requires percentiles.Values() == set j | 0 <= j < |xs| :: xs[j]
    ensures percentiles.items.Len() == |xs|
    ensures var s := InOrder(percentiles.items.root);
      (RankBand(s, 0, |xs|) != [] <==> 2 <= |xs| <= 98) &&
      (RankBand(s, 0, |xs|) != [] ==> RankBand(s, 0, |xs|)[0] == Min(xs))
  {
    var s := InOrder(percentiles.items.root);
    InOrderFacts(percentiles.items.root);
    assert percentiles.items.Len() == Count(percentiles.items.root) == |Keys(percentiles.items.root)|;
    forall v ensures v in s <==> v in xs {
      if v in xs {
        var j :| 0 <= j < |xs| && xs[j] == v;
        assert v in percentiles.Values();
      }
    }
    PivotIsMin(s, xs);
  }

  /** The four points of the point tree's example, whose x-coordinates 3, 1, 4, 5 are distinct. */
  function ExamplePoints(): seq<Point> {
    [ThreeDeeBee.Point(3, 3, 3), ThreeDeeBee.Point(1, 5, 2), ThreeDeeBee.Point(4, 3, 1), ThreeDeeBee.Point(5, 4, 0)]
  }

  /** Their x coordinates are 3, 1, 4, 5: distinct, least 1. */
  lemma ExampleXs()
    ensures Min(Xs(ExamplePoints())) == 1
    ensures Distinct(Xs(ExamplePoints()))
  {
    var xs := Xs(ExamplePoints());
    assert xs == [3, 1, 4, 5];
    assert Min(xs) <= xs[1] && Min(xs) in xs;
  }

  /** The first three points sorted by distance from x = 1. */
  lemma ExampleSortedPrefix(a: Point, b: Point, c: Point)
    requires a == ThreeDeeBee.Point(3, 3, 3) && b == ThreeDeeBee.Point(1, 5, 2) && c == ThreeDeeBee.Point(4, 3, 1)
    ensures SortByDistance([a, b, c], 1) == [b, a, c]
  {
    assert [a, b, c][..2] == [a, b] && [a, b][..1] == [a] && [a][..0] == [];
    assert SortByDistance([a], 1) == [a];
    assert SortByDistance([a, b], 1) == InsertByDistance([a], b, 1) == [b, a];
    assert InsertByDistance([a], c, 1) == [a, c];
  }

  /** Sorted by distance from x = 1 they come out as (1,5,2), (3,3,3), (4,3,1), (5,4,0). */
  lemma ExampleSorted()
    ensures SortByDistance(ExamplePoints(), 1) ==
      [ThreeDeeBee.Point(1, 5, 2), ThreeDeeBee.Point(3, 3, 3), ThreeDeeBee.Point(4, 3, 1), ThreeDeeBee.Point(5, 4, 0)]
  {
    var a, b, c, d := ThreeDeeBee.Point(3, 3, 3), ThreeDeeBee.Point(1, 5, 2), ThreeDeeBee.Point(4, 3, 1), ThreeDeeBee.Point(5, 4, 0);
    var ps := ExamplePoints();
    assert ps[..3] == [a, b, c];
    ExampleSortedPrefix(a, b, c);
    assert InsertByDistance([c], d, 1) == [c, d];
    assert InsertByDistance([a, c], d, 1) == [a, c, d];
    assert SortByDistance(ps, 1) == InsertByDistance([b, a, c], d, 1) == [b, a, c, d];
  }

  /**
   * On those points make_ordering as written raises AttributeError, while reading the store
   * through `items` gives the points ordered by distance from the least x.
   */
  method ExampleOrdering() returns (asWritten: Result<seq<Point>>, fixed: Result<seq<Point>>)
    ensures asWritten == Err(AttributeError)
    ensures fixed == Ok([ThreeDeeBee.Point(1, 5, 2), ThreeDeeBee.Point(3, 3, 3), ThreeDeeBee.Point(4, 3, 1), ThreeDeeBee.Point(5, 4, 0)])
  {
    ExampleXs();
    ExampleSorted();
    asWritten := MakeOrdering(ExamplePoints());
    fixed := MakeOrderingFixed(ExamplePoints());
  }
}
