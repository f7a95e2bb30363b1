/** Lane geometry on integer pixel coordinates: the orientation test, the
    gift-wrapping (Jarvis march) convex hull and the "did adding the point
    grow the hull" inside test. */
module Geometry {
  import opened Wrappers

  datatype Point = Point(x: int, y: int)

  datatype Orientation = Colinear | Clockwise | Counterclockwise

  /** Twice the signed area of the triangle p1 p2 p3: positive when the
      vertices run counterclockwise in a y-up frame. */
  function Area2(p1: Point, p2: Point, p3: Point): int {
    (p2.x - p1.x) * (p3.y - p1.y) - (p2.y - p1.y) * (p3.x - p1.x)
  }

  lemma TurnIsNegatedArea(p1: Point, p2: Point, p3: Point)
    ensures (p2.y - p1.y) * (p3.x - p2.x) - (p2.x - p1.x) * (p3.y - p2.y) == -Area2(p1, p2, p3)
  {
    var a, b := p2.x - p1.x, p2.y - p1.y;
    var c, d := p3.x - p2.x, p3.y - p2.y;
    assert p3.x - p1.x == a + c && p3.y - p1.y == b + d;
    assert a * (b + d) == a * b + a * d;
    assert b * (a + c) == b * a + b * c;
  }

  /** The orientation of the turn p1, p2, p3, decided by the sign of the
      source's cross-product expression; it agrees with the sign of the
      triangle's signed area. */
  function Orient(p1: Point, p2: Point, p3: Point): (r: Orientation)
    ensures r == Counterclockwise <==> Area2(p1, p2, p3) > 0
    ensures r == Colinear <==> Area2(p1, p2, p3) == 0
    ensures r == Clockwise <==> Area2(p1, p2, p3) < 0
  {
    TurnIsNegatedArea(p1, p2, p3);
    var value := (p2.y - p1.y) * (p3.x - p2.x) - (p2.x - p1.x) * (p3.y - p2.y);
    if value < 0 then Counterclockwise
    else if value == 0 then Colinear
    else Clockwise
  }

  /** A turn through a repeated point is colinear, which is why the hull scan
      special-cases the candidate equal to the current point. */
  lemma OrientDegenerate(p1: Point, p2: Point, p3: Point)
    requires p1 == p2 || p2 == p3 || p1 == p3
    ensures Orient(p1, p2, p3) == Colinear
  {
  }

  /** Running the triangle backwards swaps clockwise and counterclockwise. */
  lemma OrientReverse(p1: Point, p2: Point, p3: Point)
    ensures Orient(p3, p2, p1) == Counterclockwise <==> Orient(p1, p2, p3) == Clockwise
    ensures Orient(p3, p2, p1) == Colinear <==> Orient(p1, p2, p3) == Colinear
  {
    var a, b := p2.x - p1.x, p2.y - p1.y;
    var c, d := p3.x - p1.x, p3.y - p1.y;
    assert Area2(p1, p2, p3) == a * d - b * c;
    assert Area2(p3, p2, p1) == (a - c) * (-d) - (b - d) * (-c);
    assert (a - c) * (-d) == -(a * d) + c * d;
    assert (b - d) * (-c) == -(b * c) + d * c;
  }

  /** Starting the same triangle at its next vertex keeps the orientation. */
  lemma OrientRotate(p1: Point, p2: Point, p3: Point)
    ensures Orient(p2, p3, p1) == Orient(p1, p2, p3)
  {
    var a, b := p2.x - p1.x, p2.y - p1.y;
    var c, d := p3.x - p1.x, p3.y - p1.y;
    assert Area2(p1, p2, p3) == a * d - b * c;
    assert Area2(p2, p3, p1) == (c - a) * (-b) - (d - b) * (-a);
    assert (c - a) * (-b) == -(c * b) + a * b;
    assert (d - b) * (-a) == -(d * a) + b * a;
  }

  /** Lexicographic order on points, as for tuples. */
  predicate LexLess(a: Point, b: Point) {
    a.x < b.x || (a.x == b.x && a.y < b.y)
  }

  predicate LexLeq(a: Point, b: Point) {
    a == b || LexLess(a, b)
  }

  /** The lexicographically smallest point (the first one on ties). */
  function LexMin(pts: seq<Point>): (m: Point)
    requires |pts| > 0
    ensures m in pts
    ensures forall q :: q in pts ==> LexLeq(m, q)
    decreases |pts|
  {
    if |pts| == 1 then pts[0]
    else
      var m := LexMin(pts[1..]);
      assert forall q :: q in pts ==> q == pts[0] || q in pts[1..];
      if LexLeq(pts[0], m) then pts[0] else m
  }

  /** The inner scan of the march: the candidate replaces the best point so
      far when the best point is the current one or the candidate lies
      counterclockwise of the current-to-best edge. */
  function Scan(current: Point, best: Point, rest: seq<Point>): (r: Point)
    ensures r == best || r in rest
    decreases |rest|
  {
    if |rest| == 0 then best
    else
      var p := rest[0];
      var best' := if Replaces(current, best, p) then p else best;
      Scan(current, best', rest[1..])
  }

  /** The scan's update rule: the candidate `p` takes over when the best
      point so far is the current vertex, or when `p` lies counterclockwise
      of the edge from the current vertex to the best point. */
  predicate Replaces(current: Point, best: Point, p: Point) {
    best == current || Orient(current, p, best) == Counterclockwise
  }

  /** The index in `rest` of the candidate the scan picked last, or -1 when
      it kept the best point it started with. */
  function LastPick(current: Point, best: Point, rest: seq<Point>): int
    decreases |rest|
  {
    if |rest| == 0 then -1
    else
      var picked := Replaces(current, best, rest[0]);
      var k := LastPick(current, if picked then rest[0] else best, rest[1..]);
      if k >= 0 then k + 1 else if picked then 0 else -1
  }

  /** The scan's one-pass property: the result is the candidate picked
      last (or the starting best point), and no candidate scanned after
      that pick replaces it: the result is not the current vertex, and no
      later candidate lies counterclockwise of the edge from the current
      vertex to the result. */
  lemma {:induction false} ScanOnePass(current: Point, best: Point, rest: seq<Point>)
    ensures -1 <= LastPick(current, best, rest) < |rest|
    ensures LastPick(current, best, rest) == -1 ==> Scan(current, best, rest) == best
    ensures LastPick(current, best, rest) >= 0 ==> Scan(current, best, rest) == rest[LastPick(current, best, rest)]
    ensures LastPick(current, best, rest) < |rest| - 1 ==> Scan(current, best, rest) != current
    ensures forall j :: LastPick(current, best, rest) < j < |rest| ==>
              Orient(current, rest[j], Scan(current, best, rest)) != Counterclockwise
    decreases |rest|
  {
    if |rest| > 0 {
      var picked := Replaces(current, best, rest[0]);
      var best' := if picked then rest[0] else best;
      var tail := rest[1..];
      ScanOnePass(current, best', tail);
      var r := Scan(current, best', tail);
      var k' := LastPick(current, best', tail);
      assert r == Scan(current, best, rest);
      var k := if k' >= 0 then k' + 1 else if picked then 0 else -1;
      assert k == LastPick(current, best, rest);
      if k < |rest| - 1 && k' == |tail| - 1 {
        assert k == -1 && !picked && r == best;
      }
      forall j | k < j < |rest|
        ensures Orient(current, rest[j], r) != Counterclockwise
      {
        if j == 0 {
          assert !picked && r == best;
        } else {
          assert tail[j - 1] == rest[j];
        }
      }
      if k' >= 0 {
        assert r == tail[k'] == rest[k];
      }
    } else {
      assert LastPick(current, best, rest) == -1;
    }
  }

  /** Scanning one more candidate applies the update rule once more to the
      result so far. */
  lemma {:induction false} ScanSnoc(current: Point, best: Point, rest: seq<Point>, p: Point)
    ensures Replaces(current, Scan(current, best, rest), p) ==> Scan(current, best, rest + [p]) == p
    ensures !Replaces(current, Scan(current, best, rest), p) ==>
              Scan(current, best, rest + [p]) == Scan(current, best, rest)
    decreases |rest|
  {
    if |rest| == 0 {
      assert (rest + [p])[1..] == [];
    } else {
      assert (rest + [p])[0] == rest[0];
      assert (rest + [p])[1..] == rest[1..] + [p];
      var best' := if Replaces(current, best, rest[0]) then rest[0] else best;
      ScanSnoc(current, best', rest[1..], p);
    }
  }

  /** The next hull vertex after `current`: the scan started at the first
      point. */
  function Successor(pts: seq<Point>, current: Point): (r: Point)
    requires |pts| > 0
    ensures r in pts
  {
    Scan(current, pts[0], pts)
  }

  /** The next vertex is the candidate the scan from the first point
      picked last, and no point scanned after it lies counterclockwise of
      the edge from the current vertex to it. */
  lemma SuccessorOnePass(pts: seq<Point>, current: Point)
    requires |pts| > 0
    ensures var r := Successor(pts, current);
      var k := LastPick(current, pts[0], pts);
      && r in pts
      && (k < |pts| - 1 ==> r != current)
      && (forall j :: k < j < |pts| ==> Orient(current, pts[j], r) != Counterclockwise)
  {
    ScanOnePass(current, pts[0], pts);
  }

  lemma {:induction false} ScanAvoidsCurrent(current: Point, best: Point, rest: seq<Point>)
    requires best != current
    ensures Scan(current, best, rest) != current
    decreases |rest|
  {
    if |rest| > 0 {
      var p := rest[0];
      if p == current {
        OrientDegenerate(current, p, best);
      }
      var best' := if Replaces(current, best, p) then p else best;
      ScanAvoidsCurrent(current, best', rest[1..]);
    }
  }

  /** With two or more distinct points the march always moves on. */
  lemma SuccessorMoves(pts: seq<Point>, current: Point)
    requires NoDuplicates(pts) && |pts| >= 2
    ensures Successor(pts, current) != current
  {
    if pts[0] != current {
      ScanAvoidsCurrent(current, pts[0], pts);
    } else {
      assert Scan(current, pts[0], pts) == Scan(current, pts[0], pts[1..]);
      assert pts[1..][0] == pts[1];
      assert Scan(current, pts[0], pts[1..]) == Scan(current, pts[1], pts[2..]);
      ScanAvoidsCurrent(current, pts[1], pts[2..]);
    }
  }

  /** The outer loop of the march, bounded by `fuel`: record the current
      vertex, step to its successor, stop on coming back to `start`. `None`
      means the loop had not stopped when the fuel ran out. */
  function Walk(pts: seq<Point>, start: Point, current: Point, fuel: nat): (r: Option<seq<Point>>)
    requires |pts| > 0
    ensures r.Some? ==> 1 <= |r.value| <= fuel && r.value[0] == current
    ensures r.Some? ==> forall k :: 0 <= k < |r.value| ==> r.value[k] == current || r.value[k] in pts
    decreases fuel
  {
    if fuel == 0 then None
    else
      var next := Successor(pts, current);
      if next == start then Some([current])
      else
        match Walk(pts, start, next, fuel - 1)
        case None => None
        case Some(h) => Some([current] + h)
  }

  /** `h` is a complete march from `h[0]` back to `start`: each vertex is the
      successor of the one before, none of them but the first is `start`,
      and the successor of the last is `start`. */
  ghost predicate IsWalk(pts: seq<Point>, start: Point, h: seq<Point>)
    requires |pts| > 0
  {
    && |h| >= 1
    && (forall k :: 0 < k < |h| ==> h[k] == Successor(pts, h[k - 1]) && h[k] != start)
    && Successor(pts, h[|h| - 1]) == start
  }

  lemma {:induction false} WalkShape(pts: seq<Point>, start: Point, current: Point, fuel: nat)
    requires |pts| > 0
    ensures var r := Walk(pts, start, current, fuel);
      r.Some? ==> && r.value[0] == current && IsWalk(pts, start, r.value) && |r.value| <= fuel
                  && (forall k :: 1 <= k < |r.value| ==> r.value[k] in pts)
    decreases fuel
  {
    if fuel > 0 {
      var next := Successor(pts, current);
      if next != start {
        WalkShape(pts, start, next, fuel - 1);
        var r := Walk(pts, start, next, fuel - 1);
        if r.Some? {
          var h := [current] + r.value;
          assert forall k :: 1 <= k < |h| ==> h[k] == r.value[k - 1];
        }
      }
    }
  }

  lemma {:induction false} ShiftedVerticesAgree(pts: seq<Point>, start: Point, h: seq<Point>, i: nat, j: nat, t: nat)
    requires |pts| > 0 && IsWalk(pts, start, h)
    requires i < j < |h| && j + t < |h|
    ensures h[i] == h[j] ==> h[i + t] == h[j + t]
    decreases t
  {
    if t > 0 {
      ShiftedVerticesAgree(pts, start, h, i, j, t - 1);
      assert h[i + t] == Successor(pts, h[i + t - 1]);
      assert h[j + t] == Successor(pts, h[j + t - 1]);
    }
  }

  /** A complete march starting at `start` never visits a vertex twice: the
      successor is deterministic, so a repeated vertex would repeat the tail
      and reach `start` early. */
  lemma WalkHasNoRepeats(pts: seq<Point>, h: seq<Point>)
    requires |pts| > 0 && |h| > 0 && IsWalk(pts, h[0], h)
    ensures NoDuplicates(h)
  {
    forall i, j | 0 <= i < j < |h| ensures h[i] != h[j] {
      var t := |h| - 1 - j;
      ShiftedVerticesAgree(pts, h[0], h, i, j, t);
      var k := i + t + 1;
      assert 0 < k < |h|;
      assert h[k] == Successor(pts, h[k - 1]) && h[k] != h[0];
      assert Successor(pts, h[|h| - 1]) == h[0];
    }
  }

  /** More fuel than the length of a completed walk gives the same walk. */
  lemma {:induction false} WalkMoreFuel(pts: seq<Point>, start: Point, current: Point, fuel: nat, fuel': nat)
    requires |pts| > 0
    requires Walk(pts, start, current, fuel).Some?
    requires fuel' >= |Walk(pts, start, current, fuel).value|
    ensures Walk(pts, start, current, fuel') == Walk(pts, start, current, fuel)
    decreases fuel
  {
    var next := Successor(pts, current);
    if next != start {
      WalkMoreFuel(pts, start, next, fuel - 1, fuel' - 1);
    }
  }

  /** The order in which the deduplicated points are enumerated: each input
      point once, in an order the model leaves open. */
  predicate IsArrangement(order: seq<Point>, points: seq<Point>) {
    NoDuplicates(order) && Elems(order) == Elems(points)
  }

  /** The fuel given to the march: a completed walk has no repeated vertex,
      so it has at most as many vertices as there are points. */
  function MarchFuel(order: seq<Point>): nat {
    |order|
  }

  /** The convex hull of `points`, enumerated in `order`. Fewer than four
      distinct points come back as they are; otherwise the march runs from
      the lexicographically smallest point. `None` stands for a march that
      does not come back to its start. */
  function ConvexHull(points: seq<Point>, order: seq<Point>): (r: Option<seq<Point>>)
    requires IsArrangement(order, points)
    ensures |order| < 4 ==> r == Some(order)
    ensures r.Some? && |order| >= 4 ==>
      && |r.value| >= 2
      && r.value[0] == LexMin(order)
      && (forall q :: q in points ==> LexLeq(r.value[0], q))
      && (forall q :: q in r.value ==> q in points)
      && NoDuplicates(r.value)
  {
    if |order| < 4 then Some(order)
    else
      var m := LexMin(order);
      var r := Walk(order, m, m, MarchFuel(order));
      WalkShape(order, m, m, MarchFuel(order));
      if r.Some? then
        WalkHasNoRepeats(order, r.value);
        SuccessorMoves(order, m);
        assert forall q :: q in r.value ==> q in Elems(order);
        assert forall q :: q in points ==> q in Elems(order);
        r
      else
        r
  }

  /** The fuel never cuts a march short: whenever the source's loop stops
      (the walk completes for some fuel), the model returns that very hull. */
  lemma HullFuelSuffices(points: seq<Point>, order: seq<Point>, fuel: nat)
    requires IsArrangement(order, points) && |order| >= 4
    requires Walk(order, LexMin(order), LexMin(order), fuel).Some?
    ensures ConvexHull(points, order) == Walk(order, LexMin(order), LexMin(order), fuel)
  {
    var m := LexMin(order);
    var h := Walk(order, m, m, fuel).value;
    WalkShape(order, m, m, fuel);
    WalkHasNoRepeats(order, h);
    assert Elems(h) <= Elems(order) by {
      forall q | q in Elems(h) ensures q in Elems(order) {
        var k :| 0 <= k < |h| && h[k] == q;
      }
    }
    ElemsCard(h);
    ElemsCard(order);
    assert |Elems(h)| <= |Elems(order)| by {
      assert Elems(order) == Elems(h) + (Elems(order) - Elems(h));
    }
    WalkMoreFuel(order, m, m, fuel, MarchFuel(order));
  }

  /** Points on one horizontal line are colinear. */
  lemma HorizontalColinear(p1: Point, p2: Point, p3: Point)
    requires p1.y == p2.y == p3.y
    ensures Orient(p1, p2, p3) == Colinear
  {
    assert p3.y - p1.y == 0 && p2.y - p1.y == 0;
    assert (p2.x - p1.x) * (p3.y - p1.y) == 0;
    assert (p2.y - p1.y) * (p3.x - p1.x) == 0;
  }

  /** Among points of one horizontal line no candidate is ever
      counterclockwise, so once the best point differs from the current one
      the scan keeps it. */
  lemma {:induction false} HorizontalScanKeepsBest(current: Point, best: Point, rest: seq<Point>)
    requires best != current && best.y == current.y
    requires forall i :: 0 <= i < |rest| ==> rest[i].y == current.y
    ensures Scan(current, best, rest) == best
    decreases |rest|
  {
    if |rest| > 0 {
      HorizontalColinear(current, rest[0], best);
      HorizontalScanKeepsBest(current, best, rest[1..]);
    }
  }

  /** On one horizontal line the scan from the smallest point and from the
      second point ends on the first point, and from the first point it ends
      on the second. */
  lemma HorizontalSuccessors(order: seq<Point>, m: Point)
    requires |order| >= 2 && NoDuplicates(order)
    requires forall i :: 0 <= i < |order| ==> order[i].y == order[0].y
    requires m in order && m != order[0] && m != order[1]
    ensures Successor(order, m) == order[0]
    ensures Successor(order, order[0]) == order[1]
    ensures Successor(order, order[1]) == order[0]
  {
    var a, b := order[0], order[1];
    HorizontalScanKeepsBest(m, a, order);
    HorizontalScanKeepsBest(b, a, order);
    assert Scan(a, a, order) == Scan(a, a, order[1..]);
    assert order[1..][0] == b;
    assert Scan(a, a, order[1..]) == Scan(a, b, order[2..]);
    HorizontalScanKeepsBest(a, b, order[2..]);
  }

  /** Four or more distinct points on one horizontal line whose smallest
      point is not among the first two: the march bounces between the first
      two points and never comes back, for any amount of fuel. The source's
      loop does not terminate on such input. */
  lemma ColinearMarchNeverReturns(order: seq<Point>, fuel: nat)
    requires |order| >= 4 && NoDuplicates(order)
    requires forall i :: 0 <= i < |order| ==> order[i].y == order[0].y
    requires LexMin(order) != order[0] && LexMin(order) != order[1]
    ensures Walk(order, LexMin(order), LexMin(order), fuel) == None
    ensures ConvexHull(order, order) == None
  {
    var m := LexMin(order);
    HorizontalSuccessors(order, m);
    BouncesForever(order, m, order[0], order[1], fuel);
    BouncesForever(order, m, order[0], order[1], MarchFuel(order));
  }

  lemma {:induction false} BouncesForever(order: seq<Point>, m: Point, a: Point, b: Point, fuel: nat)
    requires |order| > 0
    requires a != m && b != m
    requires Successor(order, m) == a
    requires Successor(order, a) == b && Successor(order, b) == a
    ensures Walk(order, m, m, fuel) == None
    ensures Walk(order, m, a, fuel) == None
    ensures Walk(order, m, b, fuel) == None
    decreases fuel
  {
    if fuel > 0 {
      BouncesForever(order, m, a, b, fuel - 1);
    }
  }

  /** `point_inside`: the point counts as inside when it is not a vertex of
      the hull of the polygon's points together with it. `None` when that
      hull's march does not come back. */
  function PointInside(p: Point, hull: seq<Point>, order: seq<Point>): (r: Option<bool>)
    requires IsArrangement(order, hull + [p])
    ensures |Elems(hull)| < 3 ==> r == Some(false)
    ensures (forall q :: q in hull ==> LexLess(p, q)) ==> r != Some(true)
  {
    var h := ConvexHull(hull + [p], order);
    ElemsCard(order);
    assert Elems(hull + [p]) == Elems(hull) + {p};
    assert p in Elems(order);
    if (forall q :: q in hull ==> LexLess(p, q)) && |order| >= 4 then
      assert forall q :: q in hull + [p] ==> q in hull || q == p;
      var m := LexMin(order);
      assert p in order;
      assert m in Elems(order);
      assert m in Elems(hull + [p]);
      assert m in hull + [p];
      assert p == m;
      match h
      case None => None
      case Some(vs) => Some(p !in vs)
    else
      match h
      case None => None
      case Some(vs) => Some(p !in vs)
  }
}
