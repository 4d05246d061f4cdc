/** The route-walking arithmetic of the simulator (simulator/walk.py), over the reals. */
module Walk {
  import opened Schema

  type Distance = (Waypoint, Waypoint) -> real

  ghost predicate IsDistance(dist: Distance) {
    forall a, b :: dist(a, b) >= 0.0
  }

  /** `cum[i]` is the path length from the first waypoint to waypoint `i`. */
  ghost predicate MeasuresPath(ws: seq<Waypoint>, dist: Distance, cum: seq<real>) {
    && |cum| == |ws| > 0
    && cum[0] == 0.0
    && forall i | 0 <= i < |ws| - 1 :: cum[i + 1] == cum[i] + dist(ws[i], ws[i + 1])
  }

  predicate Nondecreasing(a: seq<real>) {
    forall i, j | 0 <= i <= j < |a| :: a[i] <= a[j]
  }

  predicate Table(cum: seq<real>) {
    |cum| >= 2 && cum[0] == 0.0 && Nondecreasing(cum)
  }

  function Total(cum: seq<real>): real
    requires |cum| > 0
  {
    cum[|cum| - 1]
  }

  /** The library's `bisect_right`: the number of entries that are at most `x`. */
  function BisectRight(a: seq<real>, x: real, lo: nat, hi: nat): (r: nat)
    requires Nondecreasing(a) && lo <= hi <= |a|
    requires forall i | 0 <= i < lo :: a[i] <= x
    requires forall i | hi <= i < |a| :: x < a[i]
    ensures r <= |a|
    ensures forall i | 0 <= i < r :: a[i] <= x
    ensures forall i | r <= i < |a| :: x < a[i]
    decreases hi - lo
  {
    if lo == hi then lo
    else
      var mid := (lo + hi) / 2;
      if x < a[mid] then BisectRight(a, x, lo, mid) else BisectRight(a, x, mid + 1, hi)
  }

  function SegmentOf(cum: seq<real>, d: real): (i: nat)
    requires Table(cum)
    ensures i + 1 < |cum|
  {
    var idx := BisectRight(cum, d, 0, |cum|) - 1;
    var capped := if idx < |cum| - 2 then idx else |cum| - 2;
    if capped < 0 then 0 else capped
  }

  function RatioIn(cum: seq<real>, d: real, i: nat): real
    requires i + 1 < |cum|
  {
    var len := cum[i + 1] - cum[i];
    if len == 0.0 then 0.0 else (d - cum[i]) / len
  }

  function Lerp(p: real, q: real, t: real): real {
    p + (q - p) * t
  }

  function Blend(p: Waypoint, q: Waypoint, t: real): Waypoint {
    Waypoint(Lerp(p.lat, q.lat, t), Lerp(p.lng, q.lng, t))
  }

  /** A segment, and a ratio along it. */
  datatype Spot = Spot(i: nat, t: real)

  function SpotAt(cum: seq<real>, d: real): (s: Spot)
    requires Table(cum)
    ensures s.i + 1 < |cum|
  {
    Spot(SegmentOf(cum, d), RatioIn(cum, d, SegmentOf(cum, d)))
  }

  function PointOf(ws: seq<Waypoint>, s: Spot): Waypoint
    requires s.i + 1 < |ws|
  {
    Blend(ws[s.i], ws[s.i + 1], s.t)
  }

  function PositionAt(ws: seq<Waypoint>, cum: seq<real>, d: real): Waypoint
    requires Table(cum) && |ws| == |cum|
  {
    if d >= Total(cum) then ws[|ws| - 1]
    else PointOf(ws, SpotAt(cum, d))
  }

  /** Where a bus is and which way it heads. */
  datatype Gait = Gait(d: real, dir: int)

  /** One move along a path of length `total`, clamped and turned at both ends. */
  function Tick(g: Gait, total: real, step: real): Gait {
    var d := g.d + g.dir as real * step;
    if d >= total then Gait(total, -1)
    else if d <= 0.0 then Gait(0.0, 1)
    else Gait(d, g.dir)
  }

  function StepLength(speedKmh: real, dtSeconds: real): real {
    speedKmh * 1000.0 * dtSeconds / 3600.0
  }

  /** One bus on one route. */
  class BusWalker {
    const waypoints: seq<Waypoint>
    var distanceM: real
    var direction: int
    var cumulative: seq<real>

    predicate Valid()
      reads this
    {
      Table(cumulative) && |waypoints| == |cumulative|
    }

    function State(): Gait
      reads this
    {
      Gait(distanceM, direction)
    }

    /** Builds the table of path lengths, one segment at a time. */
    constructor (waypoints: seq<Waypoint>, distanceM: real, direction: int, dist: Distance)
      requires |waypoints| >= 2 && IsDistance(dist)
      ensures Valid() && this.waypoints == waypoints && State() == Gait(distanceM, direction)
      ensures MeasuresPath(waypoints, dist, cumulative)
    {
      this.waypoints, this.distanceM, this.direction := waypoints, distanceM, direction;
      var cum := [0.0];
      for i := 0 to |waypoints| - 1
        invariant |cum| == i + 1 && cum[0] == 0.0 && Nondecreasing(cum)
        invariant forall j | 0 <= j < i :: cum[j + 1] == cum[j] + dist(waypoints[j], waypoints[j + 1])
      {
        cum := cum + [cum[|cum| - 1] + dist(waypoints[i], waypoints[i + 1])];
      }
      cumulative := cum;
    }

    /** A walker, or none where the route has fewer than two waypoints. */
    static method Create(waypoints: seq<Waypoint>, distanceM: real, direction: int, dist: Distance)
      returns (walker: Option<BusWalker>)
      requires IsDistance(dist)
      ensures walker.Some? <==> |waypoints| >= 2
      ensures walker.Some? ==>
                && fresh(walker.value) && walker.value.Valid()
                && walker.value.waypoints == waypoints
                && walker.value.State() == Gait(distanceM, direction)
                && MeasuresPath(waypoints, dist, walker.value.cumulative)
    {
      if |waypoints| < 2 {
        return None;
      }
      var w := new BusWalker(waypoints, distanceM, direction, dist);
      return Some(w);
    }

    function TotalM(): real
      requires Valid()
      reads this
    {
      Total(cumulative)
    }

    method Advance(speedKmh: real, dtSeconds: real)
      requires Valid()
      modifies this`distanceM, this`direction
      ensures Valid()
      ensures State() == Tick(old(State()), TotalM(), StepLength(speedKmh, dtSeconds))
    {
      var stepM := speedKmh * 1000.0 * dtSeconds / 3600.0;
      distanceM := distanceM + direction as real * stepM;
      if distanceM >= TotalM() {
        distanceM := TotalM();
        direction := -1;
      } else if distanceM <= 0.0 {
        distanceM := 0.0;
        direction := 1;
      }
    }

    function Position(): Waypoint
      requires Valid()
      reads this
    {
      PositionAt(waypoints, cumulative, distanceM)
    }
  }

  /** A step is speed times time: km/h times seconds, in 3600ths of a kilometre. */
  lemma StepIsSpeedTimesTime(speedKmh: real, dtSeconds: real)
    ensures StepLength(speedKmh, dtSeconds) * 3.6 == speedKmh * dtSeconds
  {
    var x := speedKmh * dtSeconds;
    assert speedKmh * 1000.0 * dtSeconds == 1000.0 * x;
  }

  // ----- The table -----------------------------------------------------------------------------

  lemma {:induction false} MeasuredGrows(ws: seq<Waypoint>, dist: Distance, cum: seq<real>, i: nat, j: nat)
    requires MeasuresPath(ws, dist, cum) && IsDistance(dist) && i <= j < |cum|
    ensures cum[i] <= cum[j]
  {
    if i < j {
      MeasuredGrows(ws, dist, cum, i, j - 1);
      assert cum[j - 1 + 1] == cum[j - 1] + dist(ws[j - 1], ws[j - 1 + 1]);
    }
  }

  /** Whatever the (non-negative) distance, a measured path of two or more waypoints is a table. */
  lemma MeasuredIsTable(ws: seq<Waypoint>, dist: Distance, cum: seq<real>)
    requires MeasuresPath(ws, dist, cum) && IsDistance(dist) && |ws| >= 2
    ensures Table(cum)
  {
    forall i, j | 0 <= i <= j < |cum| ensures cum[i] <= cum[j] {
      MeasuredGrows(ws, dist, cum, i, j);
    }
  }

  /** And it is the only one. */
  lemma {:induction false} MeasureIsUnique(ws: seq<Waypoint>, dist: Distance, c1: seq<real>, c2: seq<real>, n: nat)
    requires MeasuresPath(ws, dist, c1) && MeasuresPath(ws, dist, c2) && n <= |ws|
    ensures c1[..n] == c2[..n]
  {
    if n > 0 {
      MeasureIsUnique(ws, dist, c1, c2, n - 1);
      assert n > 1 ==> c1[..n - 1][n - 2] == c2[..n - 1][n - 2];
      assert n > 1 ==> c1[n - 2 + 1] == c2[n - 2 + 1];
    }
  }

  // ----- Finding the position ------------------------------------------------------------------

  /** On the route the search finds the one segment holding `d`, and that segment has length. */
  lemma SegmentHolds(cum: seq<real>, d: real)
    requires Table(cum) && 0.0 <= d < Total(cum)
    ensures cum[SegmentOf(cum, d)] <= d < cum[SegmentOf(cum, d) + 1]
  {
    var r := BisectRight(cum, d, 0, |cum|);
    assert cum[0] <= d < cum[|cum| - 1];
    assert 1 <= r <= |cum| - 1;
  }

  /** So the ratio along it is a proper one, and the zero-length branch is not taken. */
  lemma RatioProper(cum: seq<real>, d: real, i: nat)
    requires i + 1 < |cum| && cum[i] <= d < cum[i + 1]
    ensures 0.0 <= RatioIn(cum, d, i) < 1.0
    ensures RatioIn(cum, d, i) * (cum[i + 1] - cum[i]) == d - cum[i]
  {
    DivideWithin(d - cum[i], cum[i + 1] - cum[i]);
  }

  lemma DivideWithin(x: real, len: real)
    requires 0.0 <= x < len
    ensures 0.0 <= x / len < 1.0 && x / len * len == x
  {
    var t := x / len;
    assert t * len == x;
    assert t < 0.0 ==> t * len < 0.0;
    assert t >= 1.0 ==> (t - 1.0) * len >= 0.0;
  }

  lemma ProductNonneg(x: real, y: real)
    requires x >= 0.0 && y >= 0.0
    ensures x * y >= 0.0
  {
  }

  predicate Between(x: real, a: real, b: real) {
    a <= x <= b || b <= x <= a
  }

  lemma LerpBetween(a: real, b: real, t: real)
    requires 0.0 <= t <= 1.0
    ensures Between(Lerp(a, b, t), a, b)
  {
    var x, u := b - a, 1.0 - t;
    assert x * t + x * u == x;
    if x >= 0.0 {
      ProductNonneg(x, t);
      ProductNonneg(x, u);
    } else {
      ProductNonneg(-x, t);
      ProductNonneg(-x, u);
      assert (-x) * t == -(x * t) && (-x) * u == -(x * u);
    }
    assert Lerp(a, b, t) == a + x * t;
  }

  /** The position lies between two neighbouring waypoints, in both coordinates. */
  lemma PositionBetween(ws: seq<Waypoint>, cum: seq<real>, d: real) returns (i: nat)
    requires Table(cum) && |ws| == |cum| && 0.0 <= d
    ensures i < |ws| - 1
    ensures Between(PositionAt(ws, cum, d).lat, ws[i].lat, ws[i + 1].lat)
    ensures Between(PositionAt(ws, cum, d).lng, ws[i].lng, ws[i + 1].lng)
  {
    if d >= Total(cum) {
      i := |ws| - 2;
    } else {
      SegmentHolds(cum, d);
      i := SegmentOf(cum, d);
      RatioProper(cum, d, i);
      LerpBetween(ws[i].lat, ws[i + 1].lat, RatioIn(cum, d, i));
      LerpBetween(ws[i].lng, ws[i + 1].lng, RatioIn(cum, d, i));
    }
  }

  lemma LerpProportional(p: real, q: real, t: real, len: real, x: real)
    requires t * len == x
    ensures (Lerp(p, q, t) - p) * len == (q - p) * x
  {
    assert Lerp(p, q, t) - p == (q - p) * t;
    assert (q - p) * t * len == (q - p) * (t * len);
  }

  /** In the one segment around `d` each coordinate has changed in proportion to the distance. */
  lemma PositionProportional(ws: seq<Waypoint>, cum: seq<real>, d: real) returns (i: nat)
    requires Table(cum) && |ws| == |cum| && 0.0 <= d < Total(cum)
    ensures i + 1 < |ws| && cum[i] <= d < cum[i + 1]
    ensures (PositionAt(ws, cum, d).lat - ws[i].lat) * (cum[i + 1] - cum[i]) ==
              (ws[i + 1].lat - ws[i].lat) * (d - cum[i])
    ensures (PositionAt(ws, cum, d).lng - ws[i].lng) * (cum[i + 1] - cum[i]) ==
              (ws[i + 1].lng - ws[i].lng) * (d - cum[i])
  {
    SegmentHolds(cum, d);
    i := SegmentOf(cum, d);
    RatioProper(cum, d, i);
    var t, len, x := RatioIn(cum, d, i), cum[i + 1] - cum[i], d - cum[i];
    hide Lerp, RatioIn;
    LerpProportional(ws[i].lat, ws[i + 1].lat, t, len, x);
    LerpProportional(ws[i].lng, ws[i + 1].lng, t, len, x);
  }

  /** So a bus on a valid route never leaves the coordinate bounds. */
  lemma PositionInBounds(ws: seq<Waypoint>, cum: seq<real>, d: real)
    requires Table(cum) && |ws| == |cum| && 0.0 <= d && ValidWaypoints(ws)
    ensures InBounds(PositionAt(ws, cum, d))
  {
    var i := PositionBetween(ws, cum, d);
    assert ws[i] in ws && ws[i + 1] in ws;
  }

  // ----- Waypoints are visited -----------------------------------------------------------------

  /** Segments of zero length join equal points. */
  predicate NoJumps(ws: seq<Waypoint>, cum: seq<real>)
    requires |ws| == |cum|
  {
    forall i | 0 <= i < |ws| - 1 && cum[i] == cum[i + 1] :: ws[i] == ws[i + 1]
  }

  lemma {:induction false} FlatRunsAgree(ws: seq<Waypoint>, cum: seq<real>, i: nat, j: nat)
    requires Table(cum) && |ws| == |cum| && NoJumps(ws, cum)
    requires i <= j < |ws| && cum[i] == cum[j]
    ensures ws[i] == ws[j]
  {
    if i < j {
      assert cum[i] <= cum[j - 1] <= cum[j];
      FlatRunsAgree(ws, cum, i, j - 1);
      assert cum[j - 1] == cum[j - 1 + 1];
      assert ws[j - 1] == ws[j - 1 + 1];
    }
  }

  /** At a tabled distance the bus stands on the last waypoint that has this distance. */
  lemma PositionAtEntry(ws: seq<Waypoint>, cum: seq<real>, i: nat) returns (j: nat)
    requires Table(cum) && |ws| == |cum| && i < |ws|
    ensures i <= j < |ws| && cum[i] == cum[j] && PositionAt(ws, cum, cum[i]) == ws[j]
    ensures forall k | j < k < |ws| :: cum[j] < cum[k]
  {
    if cum[i] >= Total(cum) {
      j := |ws| - 1;
    } else {
      SegmentHolds(cum, cum[i]);
      j := SegmentOf(cum, cum[i]);
      assert RatioIn(cum, cum[i], j) == 0.0 by {
        assert cum[j] == cum[i];
      }
    }
  }

  /** The walk passes through every waypoint exactly when no zero-length segment jumps. */
  lemma WaypointsVisited(ws: seq<Waypoint>, cum: seq<real>)
    requires Table(cum) && |ws| == |cum|
    ensures NoJumps(ws, cum) <==> forall i | 0 <= i < |ws| :: PositionAt(ws, cum, cum[i]) == ws[i]
  {
    if NoJumps(ws, cum) {
      forall i | 0 <= i < |ws| ensures PositionAt(ws, cum, cum[i]) == ws[i] {
        var j := PositionAtEntry(ws, cum, i);
        FlatRunsAgree(ws, cum, i, j);
      }
    }
    if forall i | 0 <= i < |ws| :: PositionAt(ws, cum, cum[i]) == ws[i] {
      forall i | 0 <= i < |ws| - 1 && cum[i] == cum[i + 1] ensures ws[i] == ws[i + 1] {
        assert PositionAt(ws, cum, cum[i + 1]) == ws[i + 1];
      }
    }
  }

  // ----- No teleporting ------------------------------------------------------------------------

  /** Two points differ by at most `reach` in each coordinate. */
  predicate Near(a: Waypoint, b: Waypoint, reach: real) {
    -reach <= a.lat - b.lat <= reach && -reach <= a.lng - b.lng <= reach
  }

  predicate SegmentSmooth(ws: seq<Waypoint>, cum: seq<real>, k: real, i: nat)
    requires |ws| == |cum| && i + 1 < |ws|
  {
    Near(ws[i], ws[i + 1], k * (cum[i + 1] - cum[i]))
  }

  /** Each segment changes a coordinate by at most `k` times its length. */
  predicate SegmentsSmooth(ws: seq<Waypoint>, cum: seq<real>, k: real)
    requires |ws| == |cum|
  {
    forall i: nat | i + 1 < |ws| :: SegmentSmooth(ws, cum, k, i)
  }

  /** Reaches between waypoints, as differences of one table: this keeps the chaining linear. */
  predicate Reaches(ws: seq<Waypoint>, far: seq<real>, i: nat, j: nat)
    requires |ws| == |far| && i <= j < |ws|
  {
    Near(ws[i], ws[j], far[j] - far[i])
  }

  function Scaled(cum: seq<real>, k: real): seq<real> {
    seq(|cum|, i requires 0 <= i < |cum| => k * cum[i])
  }

  lemma ProductDiff(x: real, y: real, z: real)
    ensures (x - y) * z == x * z - y * z
    ensures z * (x - y) == z * x - z * y
  {
  }

  lemma SegmentReaches(ws: seq<Waypoint>, cum: seq<real>, k: real, i: nat)
    requires |ws| == |cum| && i + 1 < |ws| && SegmentSmooth(ws, cum, k, i)
    ensures Reaches(ws, Scaled(cum, k), i, i + 1)
  {
    ProductDiff(cum[i + 1], cum[i], k);
  }

  lemma ReachesJoin(ws: seq<Waypoint>, far: seq<real>, i: nat, j: nat, n: nat)
    requires |ws| == |far| && i <= j <= n < |ws|
    requires Reaches(ws, far, i, j) && Reaches(ws, far, j, n)
    ensures Reaches(ws, far, i, n)
  {
  }

  lemma {:induction false} ScaledReaches(ws: seq<Waypoint>, cum: seq<real>, k: real, i: nat, j: nat)
    requires |ws| == |cum| && i <= j < |ws| && SegmentsSmooth(ws, cum, k)
    ensures Reaches(ws, Scaled(cum, k), i, j)
    decreases j
  {
    if i < j {
      hide SegmentSmooth;
      ScaledReaches(ws, cum, k, i, j - 1);
      SegmentReaches(ws, cum, k, j - 1);
      ReachesJoin(ws, Scaled(cum, k), i, j - 1, j);
    }
  }

  lemma BoundedProduct(x: real, reach: real, u: real)
    requires -reach <= x <= reach && u >= 0.0
    ensures -(reach * u) <= x * u <= reach * u
  {
    ProductNonneg(reach - x, u);
    ProductNonneg(x + reach, u);
    ProductDiff(reach, x, u);
    ProductDiff(x, -reach, u);
    assert (-reach) * u == -(reach * u);
  }

  lemma LerpGap(p: real, q: real, a: real, b: real)
    ensures Lerp(p, q, b) - Lerp(p, q, a) == (q - p) * (b - a)
  {
    ProductDiff(b, a, q - p);
  }

  /** A bounded change `q - p`, taken from ratio `a` to ratio `b`: `x` and `y` are these shares of the bound. */
  lemma LerpStep(p: real, q: real, reach: real, a: real, b: real, x: real, y: real)
    requires -reach <= q - p <= reach && a <= b && a * reach == x && b * reach == y
    ensures x - y <= Lerp(p, q, a) - Lerp(p, q, b) <= y - x
  {
    hide Lerp;
    var change, share := (q - p) * (b - a), reach * (b - a);
    assert share == y - x by {
      ProductDiff(b, a, reach);
    }
    assert -share <= change <= share by {
      BoundedProduct(q - p, reach, b - a);
    }
    assert Lerp(p, q, b) - Lerp(p, q, a) == change by {
      LerpGap(p, q, a, b);
    }
  }

  /** Two ratios `a` and `b` of one segment, standing for the scaled distances `x` and `y`. */
  lemma BlendNear(p: Waypoint, q: Waypoint, reach: real, a: real, b: real, x: real, y: real)
    requires Near(p, q, reach) && a <= b && a * reach == x && b * reach == y
    ensures Near(Blend(p, q, a), Blend(p, q, b), y - x)
  {
    hide Lerp;
    LerpStep(p.lat, q.lat, reach, a, b, x, y);
    LerpStep(p.lng, q.lng, reach, a, b, x, y);
  }

  lemma BlendEnds(p: Waypoint, q: Waypoint)
    ensures Blend(p, q, 0.0) == p && Blend(p, q, 1.0) == q
  {
  }

  /** The spot is at distance `d`. */
  predicate SpotOn(cum: seq<real>, s: Spot, d: real) {
    && s.i + 1 < |cum| && cum[s.i] <= d < cum[s.i + 1]
    && 0.0 <= s.t <= 1.0 && s.t * (cum[s.i + 1] - cum[s.i]) == d - cum[s.i]
  }

  lemma SpotFound(cum: seq<real>, d: real)
    requires Table(cum) && 0.0 <= d < Total(cum)
    ensures SpotOn(cum, SpotAt(cum, d), d)
  {
    SegmentHolds(cum, d);
    RatioProper(cum, d, SegmentOf(cum, d));
  }

  lemma ScaledRatio(t: real, len: real, x: real, k: real, a: real, b: real, c: real)
    requires t * len == x && len == b - a && x == c - a
    ensures t * (k * b - k * a) == k * c - k * a
  {
    assert k * b - k * a == k * len && k * c - k * a == k * x;
    assert t * (k * len) == k * (t * len);
  }

  /** A point `p` at scaled distance `x`, within reach of both ends of segment `i`. */
  predicate Moored(ws: seq<Waypoint>, far: seq<real>, i: nat, p: Waypoint, x: real)
    requires |ws| == |far| && i + 1 < |ws|
  {
    Near(ws[i], p, x - far[i]) && Near(p, ws[i + 1], far[i + 1] - x)
  }

  /** A spot is within reach of its own segment's ends. */
  lemma NearOwnEnds(ws: seq<Waypoint>, cum: seq<real>, k: real, s: Spot, d: real)
    requires |ws| == |cum| && SpotOn(cum, s, d) && SegmentsSmooth(ws, cum, k)
    ensures Moored(ws, Scaled(cum, k), s.i, PointOf(ws, s), k * d)
  {
    var p, q, far := ws[s.i], ws[s.i + 1], Scaled(cum, k);
    var reach, x := far[s.i + 1] - far[s.i], k * d - far[s.i];
    ScaledReaches(ws, cum, k, s.i, s.i + 1);
    ScaledRatio(s.t, cum[s.i + 1] - cum[s.i], d - cum[s.i], k, cum[s.i], cum[s.i + 1], d);
    BlendEnds(p, q);
    BlendNear(p, q, reach, 0.0, s.t, 0.0, x);
    BlendNear(p, q, reach, s.t, 1.0, x, reach);
  }

  lemma RatiosOrdered(a: real, b: real, len: real, x: real, y: real)
    requires len > 0.0 && a * len == x && b * len == y && x <= y
    ensures a <= b
  {
    var c := a - b;
    assert c * len == x - y;
    assert c > 0.0 ==> c * len > 0.0;
  }

  lemma NearInSegment(ws: seq<Waypoint>, cum: seq<real>, k: real, s: Spot, d1: real, t: Spot, d2: real)
    requires |ws| == |cum| && SpotOn(cum, s, d1) && SpotOn(cum, t, d2) && SegmentsSmooth(ws, cum, k)
    requires s.i == t.i && d1 <= d2
    ensures Near(PointOf(ws, s), PointOf(ws, t), k * d2 - k * d1)
  {
    var far, a, b := Scaled(cum, k), cum[s.i], cum[s.i + 1];
    ScaledReaches(ws, cum, k, s.i, s.i + 1);
    RatiosOrdered(s.t, t.t, b - a, d1 - a, d2 - a);
    ScaledRatio(s.t, b - a, d1 - a, k, a, b, d1);
    ScaledRatio(t.t, b - a, d2 - a, k, a, b, d2);
    BlendNear(ws[s.i], ws[s.i + 1], far[s.i + 1] - far[s.i], s.t, t.t, k * d1 - far[s.i], k * d2 - far[s.i]);
  }

  lemma SegmentsOrdered(cum: seq<real>, s: Spot, d1: real, t: Spot, d2: real)
    requires Table(cum) && SpotOn(cum, s, d1) && SpotOn(cum, t, d2) && d1 <= d2
    ensures s.i <= t.i
  {
  }

  /** From a point in segment `i` to a point in a later segment `j`. */
  lemma NearAcross(ws: seq<Waypoint>, cum: seq<real>, k: real,
                   i: nat, p: Waypoint, x: real, j: nat, q: Waypoint, y: real)
    requires |ws| == |cum| && SegmentsSmooth(ws, cum, k) && i < j && j + 1 < |ws|
    requires Moored(ws, Scaled(cum, k), i, p, x) && Moored(ws, Scaled(cum, k), j, q, y)
    ensures Near(p, q, y - x)
  {
    ScaledReaches(ws, cum, k, i + 1, j);
  }

  lemma NearJoin(a: Waypoint, b: Waypoint, c: Waypoint, x: real, y: real, z: real)
    requires Near(a, b, y - x) && Near(b, c, z - y)
    ensures Near(a, c, z - x)
  {
  }

  lemma NearWider(a: Waypoint, b: Waypoint, x: real, y: real, z: real)
    requires Near(a, b, y - x) && y <= z
    ensures Near(a, b, z - x)
  {
  }

  lemma ScaleGap(k: real, x: real, y: real)
    requires k >= 0.0 && x <= y
    ensures k * x <= k * y
  {
    ProductNonneg(k, y - x);
    ProductDiff(y, x, k);
  }

  lemma ScaledBelow(cum: seq<real>, k: real, n: nat, d: real)
    requires n < |cum| && cum[n] <= d && k >= 0.0
    ensures Scaled(cum, k)[n] <= k * d
  {
    ScaleGap(k, cum[n], d);
  }

  /** From a point in segment `i` to the terminus, for any distance at or beyond it. */
  lemma NearTerminus(ws: seq<Waypoint>, cum: seq<real>, k: real, i: nat, p: Waypoint, x: real, d: real)
    requires |ws| == |cum| && SegmentsSmooth(ws, cum, k) && k >= 0.0 && i + 1 < |ws|
    requires Moored(ws, Scaled(cum, k), i, p, x) && cum[|cum| - 1] <= d
    ensures Near(p, ws[|ws| - 1], k * d - x)
  {
    var far, n := Scaled(cum, k), |ws| - 1;
    ScaledReaches(ws, cum, k, i + 1, n);
    NearJoin(p, ws[i + 1], ws[n], x, far[i + 1], far[n]);
    ScaledBelow(cum, k, n, d);
    NearWider(p, ws[n], x, far[n], k * d);
  }

  lemma NearSpots(ws: seq<Waypoint>, cum: seq<real>, k: real, s: Spot, d1: real, t: Spot, d2: real)
    requires Table(cum) && |ws| == |cum| && SegmentsSmooth(ws, cum, k)
    requires SpotOn(cum, s, d1) && SpotOn(cum, t, d2) && d1 <= d2
    ensures Near(PointOf(ws, s), PointOf(ws, t), k * d2 - k * d1)
  {
    hide Lerp, RatioIn;
    SegmentsOrdered(cum, s, d1, t, d2);
    if s.i == t.i {
      NearInSegment(ws, cum, k, s, d1, t, d2);
    } else {
      NearOwnEnds(ws, cum, k, s, d1);
      NearOwnEnds(ws, cum, k, t, d2);
      NearAcross(ws, cum, k, s.i, PointOf(ws, s), k * d1, t.i, PointOf(ws, t), k * d2);
    }
  }

  lemma NearOnRoute(ws: seq<Waypoint>, cum: seq<real>, k: real, d1: real, d2: real)
    requires Table(cum) && |ws| == |cum| && SegmentsSmooth(ws, cum, k)
    requires 0.0 <= d1 <= d2 < Total(cum)
    ensures Near(PointOf(ws, SpotAt(cum, d1)), PointOf(ws, SpotAt(cum, d2)), k * d2 - k * d1)
  {
    hide Lerp, RatioIn, SpotOn;
    SpotFound(cum, d1);
    SpotFound(cum, d2);
    NearSpots(ws, cum, k, SpotAt(cum, d1), d1, SpotAt(cum, d2), d2);
  }

  lemma NearPastEnd(ws: seq<Waypoint>, cum: seq<real>, k: real, d1: real, d2: real)
    requires Table(cum) && |ws| == |cum| && k >= 0.0 && SegmentsSmooth(ws, cum, k)
    requires 0.0 <= d1 < Total(cum) <= d2
    ensures Near(PointOf(ws, SpotAt(cum, d1)), ws[|ws| - 1], k * d2 - k * d1)
  {
    hide Lerp, RatioIn, SpotOn;
    SpotFound(cum, d1);
    var s := SpotAt(cum, d1);
    NearOwnEnds(ws, cum, k, s, d1);
    NearTerminus(ws, cum, k, s.i, PointOf(ws, s), k * d1, d2);
  }

  lemma NearLoosened(a: Waypoint, b: Waypoint, k: real, d1: real, d2: real, reach: real)
    requires Near(a, b, k * d2 - k * d1) && k * (d2 - d1) <= reach
    ensures Near(a, b, reach)
  {
    ProductDiff(d2, d1, k);
  }

  /** No teleporting: however many segments lie between, the positions at two distances differ
      by at most `k` times the difference of the distances. */
  lemma NoTeleport(ws: seq<Waypoint>, cum: seq<real>, k: real, d1: real, d2: real, reach: real)
    requires Table(cum) && |ws| == |cum| && k >= 0.0 && SegmentsSmooth(ws, cum, k)
    requires 0.0 <= d1 <= d2 && k * (d2 - d1) <= reach
    ensures Near(PositionAt(ws, cum, d1), PositionAt(ws, cum, d2), reach)
  {
    hide Lerp, RatioIn, SpotOn;
    if d2 < Total(cum) {
      NearOnRoute(ws, cum, k, d1, d2);
      NearLoosened(PointOf(ws, SpotAt(cum, d1)), PointOf(ws, SpotAt(cum, d2)), k, d1, d2, reach);
    } else if d1 < Total(cum) {
      NearPastEnd(ws, cum, k, d1, d2);
      NearLoosened(PointOf(ws, SpotAt(cum, d1)), ws[|ws| - 1], k, d1, d2, reach);
    } else {
      ProductNonneg(k, d2 - d1);
    }
  }

  // ----- The bound is exact --------------------------------------------------------------------

  /** From any distance to any farther one the position changes by at most `k` times the way. */
  predicate Continuous(ws: seq<Waypoint>, cum: seq<real>, k: real, d1: real, d2: real)
    requires Table(cum) && |ws| == |cum|
  {
    0.0 <= d1 <= d2 ==> Near(PositionAt(ws, cum, d1), PositionAt(ws, cum, d2), k * (d2 - d1))
  }

  /** The least bound that one coordinate of one segment needs. */
  function Slope(change: real, len: real): (k: real)
    requires len >= 0.0 && (len == 0.0 ==> change == 0.0)
    ensures k >= 0.0 && -(k * len) <= change <= k * len
  {
    if len == 0.0 then 0.0
    else
      SlopeHolds(change, len);
      if change < 0.0 then -change / len else change / len
  }

  lemma SlopeHolds(change: real, len: real)
    requires len > 0.0
    ensures var k := if change < 0.0 then -change / len else change / len;
            k >= 0.0 && k * len == if change < 0.0 then -change else change
  {
    var size := if change < 0.0 then -change else change;
    var k := size / len;
    assert k * len == size;
    assert k < 0.0 ==> k * len < 0.0;
  }

  lemma SmoothWider(ws: seq<Waypoint>, cum: seq<real>, k: real, wider: real, i: nat)
    requires Table(cum) && |ws| == |cum| && i + 1 < |ws| && k <= wider && SegmentSmooth(ws, cum, k, i)
    ensures SegmentSmooth(ws, cum, wider, i)
  {
    var len := cum[i + 1] - cum[i];
    ProductNonneg(wider - k, len);
    ProductDiff(wider, k, len);
  }

  /** The first `n` segments of a route without jumps share a bound. */
  lemma {:induction false} BoundExists(ws: seq<Waypoint>, cum: seq<real>, n: nat) returns (k: real)
    requires Table(cum) && |ws| == |cum| && NoJumps(ws, cum) && n < |ws|
    ensures k >= 0.0 && forall i: nat | i < n :: SegmentSmooth(ws, cum, k, i)
  {
    if n == 0 {
      return 0.0;
    }
    var before := BoundExists(ws, cum, n - 1);
    var i := n - 1;
    var a := Slope(ws[i].lat - ws[i + 1].lat, cum[i + 1] - cum[i]);
    var b := Slope(ws[i].lng - ws[i + 1].lng, cum[i + 1] - cum[i]);
    k := before + a + b;
    SlopesWider(ws, cum, a, b, a + b, i);
    SmoothWider(ws, cum, a + b, k, i);
    forall j: nat | j < n ensures SegmentSmooth(ws, cum, k, j) {
      if j < i {
        SmoothWider(ws, cum, before, k, j);
      }
    }
  }

  lemma SlopesWider(ws: seq<Waypoint>, cum: seq<real>, a: real, b: real, k: real, i: nat)
    requires Table(cum) && |ws| == |cum| && i + 1 < |ws| && a <= k && b <= k
    requires var len := cum[i + 1] - cum[i];
             -(a * len) <= ws[i].lat - ws[i + 1].lat <= a * len && -(b * len) <= ws[i].lng - ws[i + 1].lng <= b * len
    ensures SegmentSmooth(ws, cum, k, i)
  {
    var len := cum[i + 1] - cum[i];
    ProductNonneg(k - a, len);
    ProductDiff(k, a, len);
    ProductNonneg(k - b, len);
    ProductDiff(k, b, len);
  }

  /** A route has a bound exactly when no zero-length segment jumps. */
  lemma BoundedExactly(ws: seq<Waypoint>, cum: seq<real>)
    requires Table(cum) && |ws| == |cum|
    ensures NoJumps(ws, cum) <==> exists k | k >= 0.0 :: SegmentsSmooth(ws, cum, k)
  {
    if NoJumps(ws, cum) {
      var k := BoundExists(ws, cum, |ws| - 1);
      assert SegmentsSmooth(ws, cum, k);
    }
    if exists k | k >= 0.0 :: SegmentsSmooth(ws, cum, k) {
      var k :| k >= 0.0 && SegmentsSmooth(ws, cum, k);
      forall i | 0 <= i < |ws| - 1 && cum[i] == cum[i + 1] ensures ws[i] == ws[i + 1] {
        assert SegmentSmooth(ws, cum, k, i);
        FlatSegment(ws, cum, k, i);
      }
    }
  }

  lemma FlatSegment(ws: seq<Waypoint>, cum: seq<real>, k: real, i: nat)
    requires |ws| == |cum| && i + 1 < |ws| && cum[i] == cum[i + 1] && SegmentSmooth(ws, cum, k, i)
    ensures ws[i] == ws[i + 1]
  {
    assert k * 0.0 == 0.0;
  }

  /** And on such a route the bound on the segments is exactly the bound on the whole walk. */
  lemma NoTeleportExactly(ws: seq<Waypoint>, cum: seq<real>, k: real)
    requires Table(cum) && |ws| == |cum| && NoJumps(ws, cum) && k >= 0.0
    ensures SegmentsSmooth(ws, cum, k) <==> forall d1, d2 :: Continuous(ws, cum, k, d1, d2)
  {
    if SegmentsSmooth(ws, cum, k) {
      forall d1, d2 ensures Continuous(ws, cum, k, d1, d2) {
        if 0.0 <= d1 <= d2 {
          NoTeleport(ws, cum, k, d1, d2, k * (d2 - d1));
        }
      }
    }
    if forall d1, d2 :: Continuous(ws, cum, k, d1, d2) {
      WaypointsVisited(ws, cum);
      forall i: nat | i + 1 < |ws| ensures SegmentSmooth(ws, cum, k, i) {
        assert 0.0 <= cum[i] <= cum[i + 1];
        assert Continuous(ws, cum, k, cum[i], cum[i + 1]);
      }
    }
  }
}
