/**
 * Marquee hit testing: the points sampled inside a rectangle and the elements found there.
 */
module SampleGrid {
  import opened Prelude
  import opened Geometry

  datatype Rect = Rect(x: real, y: real, width: real, height: real)

  const DEFAULT_SAMPLE_STEP := 16.0

  predicate Within(p: Point, r: Rect) {
    r.x <= p.x <= r.x + r.width && r.y <= p.y <= r.y + r.height
  }

  predicate Interior(p: Point, r: Rect) {
    r.x < p.x < r.x + r.width && r.y < p.y < r.y + r.height
  }

  predicate Inside(inner: Rect, outer: Rect) {
    && outer.x <= inner.x && inner.x + inner.width <= outer.x + outer.width
    && outer.y <= inner.y && inner.y + inner.height <= outer.y + outer.height
  }

  function Times(k: int, step: real): real {
    k as real * step
  }

  function GridPoint(rect: Rect, step: real, k: int, l: int): Point {
    Point(rect.x + Times(k, step), rect.y + Times(l, step))
  }

  /** The four corners and the centre. */
  function Anchors(rect: Rect): seq<Point> {
    [Point(rect.x, rect.y),
     Point(rect.x + rect.width, rect.y),
     Point(rect.x, rect.y + rect.height),
     Point(rect.x + rect.width, rect.y + rect.height),
     Point((rect.x + (rect.x + rect.width)) / 2.0, (rect.y + (rect.y + rect.height)) / 2.0)]
  }

  /** Column `k` of the grid, from the second point up to point `n`. */
  ghost function Column(rect: Rect, step: real, k: int, n: nat): seq<Point> {
    seq(n, l => GridPoint(rect, step, k, l + 1))
  }

  ghost function Columns(rect: Rect, step: real, m: nat, n: nat): seq<Point> {
    if m == 0 then [] else Columns(rect, step, m - 1, n) + Column(rect, step, m, n)
  }

  /** How many positive multiples of `step` are below `size`. */
  ghost function Multiples(size: real, step: real): (n: nat)
    requires step > 0.0
    ensures forall k: int {:trigger Times(k, step)} :: k >= 1 ==> (k <= n <==> Times(k, step) < size)
  {
    if size <= 0.0 then
      MultiplesNone(size, step);
      0
    else
      var q := size / step;
      assert q * step == size;
      assert q >= 0.0;
      var whole := q.Floor;
      MultiplesBelow(size, step, q);
      if whole as real == q && whole > 0 then whole - 1 else whole
  }

  lemma MultiplesNone(size: real, step: real)
    requires step > 0.0 && size <= 0.0
    ensures forall k: int {:trigger Times(k, step)} :: k >= 1 ==> Times(k, step) >= size
  {
    forall k: int {:trigger Times(k, step)} | k >= 1
      ensures Times(k, step) >= size
    {
      TimesMonotone(0, k, step);
    }
  }

  lemma TimesMonotone(j: int, k: int, step: real)
    requires step > 0.0 && j <= k
    ensures Times(j, step) <= Times(k, step)
  {
    assert Times(k, step) - Times(j, step) == (k - j) as real * step;
  }

  lemma TimesPositive(k: int, step: real)
    requires step > 0.0 && k >= 1
    ensures Times(k, step) > 0.0
  {
  }

  lemma ScaleOrder(a: real, b: real, step: real)
    requires step > 0.0
    ensures a < b <==> a * step < b * step
  {
    assert b * step - a * step == (b - a) * step;
    if a < b {
      assert (b - a) * step > 0.0;
    } else {
      assert (a - b) * step >= 0.0;
    }
  }

  lemma MultiplesBelow(size: real, step: real, q: real)
    requires step > 0.0 && q * step == size
    ensures forall k: int {:trigger Times(k, step)} :: Times(k, step) < size <==> k as real < q
  {
    forall k: int {:trigger Times(k, step)}
      ensures Times(k, step) < size <==> k as real < q
    {
      ScaleOrder(k as real, q, step);
    }
  }

  ghost function Grid(rect: Rect, step: real): seq<Point>
    requires step > 0.0
  {
    Columns(rect, step, Multiples(rect.width, step), Multiples(rect.height, step))
  }

  ghost function Samples(rect: Rect, step: real): seq<Point>
    requires step > 0.0
  {
    Anchors(rect) + Grid(rect, step)
  }

  lemma {:induction false} ColumnsHold(rect: Rect, step: real, m: nat, n: nat)
    ensures |Columns(rect, step, m, n)| == m * n
    ensures forall k, l :: 1 <= k <= m && 1 <= l <= n ==> GridPoint(rect, step, k, l) in Columns(rect, step, m, n)
    ensures forall p :: p in Columns(rect, step, m, n) ==>
      exists k, l :: 1 <= k <= m && 1 <= l <= n && p == GridPoint(rect, step, k, l)
  {
    if m > 0 {
      ColumnsHold(rect, step, m - 1, n);
      var column := Column(rect, step, m, n);
      assert m * n == (m - 1) * n + n;
      forall l | 1 <= l <= n
        ensures GridPoint(rect, step, m, l) in column
      {
        assert column[l - 1] == GridPoint(rect, step, m, l);
      }
      forall p | p in column
        ensures exists l :: 1 <= l <= n && p == GridPoint(rect, step, m, l)
      {
        var i :| 0 <= i < |column| && column[i] == p;
        assert p == GridPoint(rect, step, m, i + 1);
      }
    }
  }

  lemma GridPointInside(rect: Rect, step: real, k: int, l: int)
    requires step > 0.0 && 1 <= k <= Multiples(rect.width, step) && 1 <= l <= Multiples(rect.height, step)
    ensures Interior(GridPoint(rect, step, k, l), rect)
  {
    TimesPositive(k, step);
    TimesPositive(l, step);
    assert Times(k, step) < rect.width && Times(l, step) < rect.height;
    hide Times;
  }

  lemma GridStaysInside(rect: Rect, step: real)
    requires step > 0.0
    ensures forall p :: p in Grid(rect, step) ==> Interior(p, rect)
  {
    var (m, n) := (Multiples(rect.width, step), Multiples(rect.height, step));
    ColumnsHold(rect, step, m, n);
    forall p | p in Grid(rect, step)
      ensures Interior(p, rect)
    {
      hide Columns, GridPoint, Interior, Multiples;
      var k, l :| 1 <= k <= m && 1 <= l <= n && p == GridPoint(rect, step, k, l);
      GridPointInside(rect, step, k, l);
    }
  }

  /** The grid is the set of positive multiples of the step, counted from the corner, strictly inside. */
  lemma GridExactly(rect: Rect, step: real, k: int, l: int)
    requires step > 0.0 && k >= 1 && l >= 1
    ensures GridPoint(rect, step, k, l) in Grid(rect, step) <==> Times(k, step) < rect.width && Times(l, step) < rect.height
  {
    GridStaysInside(rect, step);
    ColumnsHold(rect, step, Multiples(rect.width, step), Multiples(rect.height, step));
  }

  /** A corner lies on one vertical and one horizontal edge. */
  ghost predicate IsCorner(p: Point, rect: Rect) {
    (p.x == rect.x || p.x == rect.x + rect.width) && (p.y == rect.y || p.y == rect.y + rect.height)
  }

  /** The centre is as far from the left as from the right edge, and as far from the top as from the bottom. */
  ghost predicate IsCentre(p: Point, rect: Rect) {
    p.x - rect.x == rect.x + rect.width - p.x && p.y - rect.y == rect.y + rect.height - p.y
  }

  /** First the corners, upper before lower and left before right, then the centre. */
  lemma AnchorsExactly(rect: Rect)
    ensures var ps := Anchors(rect);
            && |ps| == 5
            && (forall p :: p in ps <==> IsCorner(p, rect) || IsCentre(p, rect))
            && (forall i :: 0 <= i < 4 ==> IsCorner(ps[i], rect)) && IsCentre(ps[4], rect)
            && ps[0].y == rect.y == ps[1].y && ps[0].x == rect.x == ps[2].x
            && ps[3] == Point(ps[1].x, ps[2].y) && ps[1].x == rect.x + rect.width && ps[2].y == rect.y + rect.height
  {
    var ps := Anchors(rect);
    forall p | IsCorner(p, rect) || IsCentre(p, rect)
      ensures p in ps
    {
      assert p == ps[0] || p == ps[1] || p == ps[2] || p == ps[3] || p == ps[4];
    }
  }

  /** The grid follows, column by column from the left, each from above. */
  lemma {:induction false} ColumnsInOrder(rect: Rect, step: real, m: nat, n: nat, k: nat, l: nat)
    requires k < m && l < n
    ensures 0 <= k * n + l < |Columns(rect, step, m, n)|
    ensures Columns(rect, step, m, n)[k * n + l] == Point(rect.x + (k + 1) as real * step, rect.y + (l + 1) as real * step)
  {
    ColumnsHold(rect, step, m, n);
    RowMajor(m, n, k, l);
    ColumnAt(rect, step, m, n, k, l, k * n + l);
    GridPointAt(rect, step, k + 1, l + 1);
    hide *;
  }

  lemma {:induction false} ColumnAt(rect: Rect, step: real, m: nat, n: nat, k: nat, l: nat, i: nat)
    requires k < m && l < n && i == k * n + l
    ensures i < |Columns(rect, step, m, n)| && Columns(rect, step, m, n)[i] == GridPoint(rect, step, k + 1, l + 1)
  {
    var (before, last) := (Columns(rect, step, m - 1, n), Column(rect, step, m, n));
    ColumnsHold(rect, step, m - 1, n);
    LastColumn(rect, step, m, n);
    RowMajor(m, n, k, l);
    if k < m - 1 {
      ColumnAt(rect, step, m - 1, n, k, l, i);
      hide *;
      InFront(before, last, i);
    } else {
      hide *;
      Behind(before, last, i, l);
    }
  }

  lemma InFront(a: seq<Point>, b: seq<Point>, i: int)
    requires 0 <= i < |a|
    ensures (a + b)[i] == a[i]
  {
  }

  lemma Behind(a: seq<Point>, b: seq<Point>, i: int, l: nat)
    requires i == |a| + l && l < |b|
    ensures (a + b)[i] == b[l]
  {
  }

  lemma RowMajor(m: nat, n: nat, k: nat, l: nat)
    requires k < m && l < n
    ensures 0 <= k * n + l < m * n
    ensures if k < m - 1 then k * n + l < (m - 1) * n else k * n == (m - 1) * n
  {
    RowsBelow(k, m, n);
    if k < m - 1 {
      RowsBelow(k, m - 1, n);
    }
  }

  lemma RowsBelow(k: nat, m: nat, n: nat)
    requires k < m
    ensures 0 <= k * n && k * n + n <= m * n
  {
    assert m * n == k * n + (m - k - 1) * n + n;
  }

  lemma LastColumn(rect: Rect, step: real, m: nat, n: nat)
    requires m > 0
    ensures Columns(rect, step, m, n) == Columns(rect, step, m - 1, n) + Column(rect, step, m, n)
    ensures |Column(rect, step, m, n)| == n
    ensures forall l :: 0 <= l < n ==> Column(rect, step, m, n)[l] == GridPoint(rect, step, m, l + 1)
  {
  }

  lemma GridPointAt(rect: Rect, step: real, k: int, l: int)
    ensures GridPoint(rect, step, k, l) == Point(rect.x + k as real * step, rect.y + l as real * step)
  {
  }

  lemma SamplesStayInside(rect: Rect, step: real)
    requires step > 0.0 && rect.width >= 0.0 && rect.height >= 0.0
    ensures forall p :: p in Samples(rect, step) ==> Within(p, rect)
  {
    GridStaysInside(rect, step);
    hide Grid;
  }

  // ---------------------------------------------------------------- coverage

  /** An interval longer than the step has a multiple of the step strictly inside. */
  lemma MultipleInside(from: real, length: real, step: real) returns (k: int)
    requires step > 0.0 && from >= 0.0 && length > step
    ensures k >= 1 && from < Times(k, step) < from + length
  {
    var q := from / step;
    assert q * step == from;
    QuotientIsPositive(q, step);
    k := q.Floor + 1;
    NextAfterQuotient(q, k, step);
  }

  lemma QuotientIsPositive(q: real, step: real)
    requires step > 0.0 && q * step >= 0.0
    ensures q >= 0.0
  {
    ScaleOrder(q, 0.0, step);
  }

  lemma NextAfterQuotient(q: real, k: int, step: real)
    requires step > 0.0 && (k - 1) as real <= q < k as real
    ensures q * step < Times(k, step) <= q * step + step
  {
    TimesOrder(q, k, step);
    TimesOrder(q, k - 1, step);
    NextMultiple(k - 1, step);
    assert k - 1 + 1 == k;
    hide Times;
  }

  lemma TimesOrder(q: real, k: int, step: real)
    requires step > 0.0
    ensures q < k as real <==> q * step < Times(k, step)
  {
    ScaleOrder(q, k as real, step);
  }

  /**
   * Every part of the rectangle whose sides are both longer than the step has a sampled point
   * strictly inside.
   */
  lemma EveryLargePartIsSampled(rect: Rect, step: real, part: Rect)
    requires step > 0.0 && Inside(part, rect) && part.width > step && part.height > step
    ensures exists p :: p in Samples(rect, step) && Interior(p, part)
  {
    var k := MultipleInside(part.x - rect.x, part.width, step);
    var l := MultipleInside(part.y - rect.y, part.height, step);
    GridExactly(rect, step, k, l);
    var p := GridPoint(rect, step, k, l);
    assert p in Samples(rect, step) && Interior(p, part);
  }

  /** A part no wider than the step can miss every sample, edges included, and so can one no higher. */
  lemma SmallPartCanBeMissed(step: real, w: real, h: real)
    requires step > 0.0 && w >= 0.0 && h >= 0.0 && (w <= step || h <= step)
    ensures var rect := if w <= step then Rect(0.0, 0.0, w, 10.0 * h + 10.0) else Rect(0.0, 0.0, 10.0 * w + 10.0, h);
            var part := if w <= step then Rect(0.0, h + 1.0, w, h) else Rect(w + 1.0, 0.0, w, h);
            Inside(part, rect) && forall p :: p in Samples(rect, step) ==> !Within(p, part)
  {
    var rect := if w <= step then Rect(0.0, 0.0, w, 10.0 * h + 10.0) else Rect(0.0, 0.0, 10.0 * w + 10.0, h);
    assert Times(1, step) == step;
    if w <= step {
      assert Multiples(w, step) == 0;
    } else {
      assert Multiples(h, step) == 0;
    }
    ColumnsHold(rect, step, Multiples(rect.width, step), Multiples(rect.height, step));
    assert Grid(rect, step) == [];
  }

  /** Parts of the given size hold a sample wherever they lie, in whatever rectangle. */
  ghost predicate AlwaysSampled(step: real, w: real, h: real)
    requires step > 0.0
  {
    forall rect, part :: Inside(part, rect) && part.width == w && part.height == h ==>
      exists p :: p in Samples(rect, step) && Within(p, part)
  }

  /** The density of the grid: exactly the sizes with both sides longer than the step are always sampled. */
  lemma CoverageExactly(step: real, w: real, h: real)
    requires step > 0.0 && w >= 0.0 && h >= 0.0
    ensures AlwaysSampled(step, w, h) <==> w > step && h > step
  {
    if w > step && h > step {
      forall rect, part | Inside(part, rect) && part.width == w && part.height == h
        ensures exists p :: p in Samples(rect, step) && Within(p, part)
      {
        EveryLargePartIsSampled(rect, step, part);
      }
    } else {
      SmallPartCanBeMissed(step, w, h);
    }
  }

  ghost predicate StopsAt(start: real, end: real, step: real, k: nat) {
    start + Times(k + 1, step) >= end
  }

  /** The loops' guard becomes false at some turn exactly when the step is positive or it is false at once. */
  lemma LoopsStopExactly(start: real, end: real, step: real)
    ensures (exists k: nat :: StopsAt(start, end, step, k)) <==> step > 0.0 || start + step >= end
  {
    assert Times(1, step) == step;
    if step > 0.0 {
      var n := Multiples(end - start, step);
      assert Times(n + 1, step) >= end - start;
      assert StopsAt(start, end, step, n);
    } else if start + step >= end {
      assert StopsAt(start, end, step, 0);
    } else {
      forall k: nat
        ensures !StopsAt(start, end, step, k)
      {
        NextMultiple(k, step);
        assert Times(k, step) <= 0.0;
      }
    }
  }

  method SampleRectGrid(rect: Rect, step: real) returns (points: seq<Point>)
    requires step > 0.0
    ensures points == Samples(rect, step)
  {
    var x0, y0 := rect.x, rect.y;
    var x1, y1 := rect.x + rect.width, rect.y + rect.height;
    points := [Point(x0, y0), Point(x1, y0), Point(x0, y1), Point(x1, y1),
               Point((x0 + x1) / 2.0, (y0 + y1) / 2.0)];
    ghost var m, n := Multiples(rect.width, step), Multiples(rect.height, step);
    var x := x0 + step;
    ghost var k := 1;
    assert Times(1, step) == step;
    while x < x1
      invariant 1 <= k <= m + 1 && x == x0 + Times(k, step)
      invariant points == Anchors(rect) + Columns(rect, step, k - 1, n)
      decreases m + 1 - k
    {
      ghost var before := points;
      var y := y0 + step;
      ghost var l := 1;
      while y < y1
        invariant 1 <= l <= n + 1 && y == y0 + Times(l, step)
        invariant points == before + Column(rect, step, k, l - 1)
        decreases n + 1 - l
      {
        assert Column(rect, step, k, l) == Column(rect, step, k, l - 1) + [GridPoint(rect, step, k, l)];
        points := points + [Point(x, y)];
        NextMultiple(l, step);
        y := y + step;
        l := l + 1;
      }
      assert l == n + 1;
      NextMultiple(k, step);
      x := x + step;
      k := k + 1;
    }
    assert k == m + 1;
  }

  lemma NextMultiple(k: int, step: real)
    ensures Times(k + 1, step) == Times(k, step) + step
  {
  }

  // ---------------------------------------------------------------- elements

  function Distinct<T(==)>(s: seq<T>): seq<T> {
    if s == [] then []
    else
      var earlier := Distinct(s[..|s| - 1]);
      if s[|s| - 1] in earlier then earlier else earlier + [s[|s| - 1]]
  }

  ghost function Stacked<E>(hits: Point -> seq<E>, points: seq<Point>): seq<E> {
    if points == [] then [] else Stacked(hits, points[..|points| - 1]) + hits(points[|points| - 1])
  }

  /** Nothing is lost, nothing is listed twice, and the order is that of the first occurrences. */
  lemma {:induction false} DistinctKeepsFirstSeen<T>(s: seq<T>)
    ensures forall e :: e in Distinct(s) <==> e in s
    ensures forall i, j :: 0 <= i < j < |Distinct(s)| ==> Distinct(s)[i] != Distinct(s)[j]
    ensures forall i :: 0 <= i <= |s| ==> Distinct(s[..i]) <= Distinct(s)
  {
    if s != [] {
      var init := s[..|s| - 1];
      DistinctKeepsFirstSeen(init);
      assert s == init + [s[|s| - 1]];
      forall i | 0 <= i <= |s|
        ensures Distinct(s[..i]) <= Distinct(s)
      {
        if i < |s| {
          assert init[..i] == s[..i];
        } else {
          assert s[..i] == s;
        }
      }
    }
  }

  lemma {:induction false} StackedHolds<E>(hits: Point -> seq<E>, points: seq<Point>)
    ensures forall e :: e in Stacked(hits, points) <==> exists p :: p in points && e in hits(p)
  {
    if points != [] {
      var init := points[..|points| - 1];
      StackedHolds(hits, init);
      assert points == init + [points[|points| - 1]];
    }
  }

  lemma DistinctNext<T>(earlier: seq<T>, stack: seq<T>, j: nat)
    requires j < |stack|
    ensures var d := Distinct(earlier + stack[..j]);
            Distinct(earlier + stack[..j + 1]) == if stack[j] in d then d else d + [stack[j]]
  {
    assert (earlier + stack[..j + 1])[..|earlier| + j] == earlier + stack[..j];
  }

  lemma StackedNext<E>(hits: Point -> seq<E>, points: seq<Point>, i: nat)
    requires i < |points|
    ensures Stacked(hits, points[..i + 1]) == Stacked(hits, points[..i]) + hits(points[i])
  {
    assert points[..i + 1][..i] == points[..i];
  }

  /**
   * `hits(p)` is the filtered stack of elements under `p`. With a step that is not positive the
   * source does not return (`LoopsStopExactly`).
   */
  method ElementsFromRect<E(==)>(rect: Rect, sampleStep: Option<real>, hits: Point -> seq<E>) returns (result: seq<E>)
    requires sampleStep.GetOr(DEFAULT_SAMPLE_STEP) > 0.0 || rect.width <= 0.0 || rect.height <= 0.0
    ensures rect.width <= 0.0 || rect.height <= 0.0 ==> result == []
    ensures rect.width > 0.0 && rect.height > 0.0 ==>
      result == Distinct(Stacked(hits, Samples(rect, if sampleStep.Some? then sampleStep.value else 16.0)))
  {
    if rect.width <= 0.0 || rect.height <= 0.0 {
      return [];
    }
    var step := sampleStep.GetOr(DEFAULT_SAMPLE_STEP);
    var points := SampleRectGrid(rect, step);
    var seen: set<E> := {};
    result := [];
    assert Distinct(Stacked(hits, [])) == [];
    hide *;
    for i := 0 to |points|
      invariant result == Distinct(Stacked(hits, points[..i]))
      invariant forall e :: e in seen <==> e in result
    {
      var stack := hits(points[i]);
      ghost var earlier := Stacked(hits, points[..i]);
      assert earlier + stack[..0] == earlier;
      for j := 0 to |stack|
        invariant result == Distinct(earlier + stack[..j])
        invariant forall e :: e in seen <==> e in result
      {
        DistinctNext(earlier, stack, j);
        if stack[j] !in seen {
          seen := seen + {stack[j]};
          result := result + [stack[j]];
        }
      }
      assert stack[..|stack|] == stack;
      StackedNext(hits, points, i);
    }
    assert points[..|points|] == points;
  }

  /** What is returned is under the rectangle; what fills a part larger than the step is returned. */
  lemma LargeElementsAreFound<E>(rect: Rect, step: real, hits: Point -> seq<E>, e: E, part: Rect)
    requires step > 0.0 && rect.width > 0.0 && rect.height > 0.0
    ensures e in Distinct(Stacked(hits, Samples(rect, step))) ==> exists p :: Within(p, rect) && e in hits(p)
    ensures Inside(part, rect) && part.width > step && part.height > step && (forall p :: Interior(p, part) ==> e in hits(p))
        ==> e in Distinct(Stacked(hits, Samples(rect, step)))
  {
    var samples := Samples(rect, step);
    DistinctKeepsFirstSeen(Stacked(hits, samples));
    StackedHolds(hits, samples);
    SamplesStayInside(rect, step);
    hide Samples, Distinct, Stacked, Within, Interior;
    if Inside(part, rect) && part.width > step && part.height > step && (forall p :: Interior(p, part) ==> e in hits(p)) {
      EveryLargePartIsSampled(rect, step, part);
    }
  }
}
