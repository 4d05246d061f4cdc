/** Whole runs of a bus walker: how far it goes, how often it turns, where it is after k ticks. */
module WalkRun {
  import opened Schema
  import opened Walk

  predicate OnPath(g: Gait, total: real) {
    0.0 <= g.d <= total && (g.dir == 1 || g.dir == -1)
  }

  /** On the path, or just created with a start drawn beyond the end of a short route. */
  predicate Underway(g: Gait, total: real) {
    OnPath(g, total) || (0.0 <= g.d && g.dir == 1)
  }

  function Abs(x: real): real {
    if x < 0.0 then -x else x
  }

  // ----- One tick ------------------------------------------------------------------------------

  /** From any start and for any step, even a negative one, a tick ends on the path. */
  lemma TickLandsOnPath(g: Gait, total: real, step: real)
    requires total >= 0.0
    ensures 0.0 <= Tick(g, total, step).d <= total
  {
  }

  function Clip(d: real, total: real): real {
    if d >= total then total else d
  }

  lemma ClippedMove(g: Gait, total: real, step: real)
    requires total >= 0.0 && g.d >= 0.0 && (g.dir == 1 || g.dir == -1)
    ensures Abs(Tick(g, total, step).d - Clip(g.d, total)) <= Abs(step)
  {
    assert g.dir as real * step == step || g.dir as real * step == -step;
  }

  lemma NearBack(p: Waypoint, q: Waypoint, reach: real)
    requires Near(p, q, reach)
    ensures Near(q, p, reach)
  {
  }

  lemma NearEitherWay(ws: seq<Waypoint>, cum: seq<real>, k: real, a: real, b: real, most: real)
    requires Table(cum) && |ws| == |cum| && k >= 0.0 && SegmentsSmooth(ws, cum, k)
    requires 0.0 <= a && 0.0 <= b && Abs(b - a) <= most
    ensures Near(PositionAt(ws, cum, a), PositionAt(ws, cum, b), k * most)
  {
    hide PositionAt, SegmentsSmooth;
    if a <= b {
      ScaleGap(k, b - a, most);
      NoTeleport(ws, cum, k, a, b, k * most);
    } else {
      ScaleGap(k, a - b, most);
      NoTeleport(ws, cum, k, b, a, k * most);
      NearBack(PositionAt(ws, cum, b), PositionAt(ws, cum, a), k * most);
    }
  }

  lemma ClipKeepsPosition(ws: seq<Waypoint>, cum: seq<real>, d: real)
    requires Table(cum) && |ws| == |cum|
    ensures PositionAt(ws, cum, Clip(d, Total(cum))) == PositionAt(ws, cum, d)
  {
  }

  /** From any distance to one at most `most` away from where the bus is shown. */
  lemma NearAfter(ws: seq<Waypoint>, cum: seq<real>, k: real, d: real, b: real, most: real)
    requires Table(cum) && |ws| == |cum| && k >= 0.0 && SegmentsSmooth(ws, cum, k)
    requires 0.0 <= d && 0.0 <= b && Abs(b - Clip(d, Total(cum))) <= most
    ensures Near(PositionAt(ws, cum, d), PositionAt(ws, cum, b), k * most)
  {
    NearEitherWay(ws, cum, k, Clip(d, Total(cum)), b, most);
    ClipKeepsPosition(ws, cum, d);
  }

  /** A tick moves the bus by at most `k` times its step in each coordinate, from any start, also
      one drawn beyond the end of the route. */
  lemma TickNoTeleport(ws: seq<Waypoint>, cum: seq<real>, k: real, g: Gait, step: real)
    requires Table(cum) && |ws| == |cum| && k >= 0.0 && SegmentsSmooth(ws, cum, k)
    requires g.d >= 0.0 && (g.dir == 1 || g.dir == -1)
    ensures Near(PositionAt(ws, cum, g.d), PositionAt(ws, cum, Tick(g, Total(cum), step).d), k * Abs(step))
  {
    hide Tick, Abs, Clip;
    assert Total(cum) >= 0.0;
    ClippedMove(g, Total(cum), step);
    TickLandsOnPath(g, Total(cum), step);
    NearAfter(ws, cum, k, g.d, Tick(g, Total(cum), step).d, Abs(step));
  }

  // ----- Runs ----------------------------------------------------------------------------------

  function Run(g: Gait, total: real, steps: seq<real>): Gait {
    if steps == [] then g else Tick(Run(g, total, Init(steps)), total, Last(steps))
  }

  function Init(s: seq<real>): seq<real>
    requires s != []
  {
    s[..|s| - 1]
  }

  function Last(s: seq<real>): real
    requires s != []
  {
    s[|s| - 1]
  }

  function Sum(steps: seq<real>): real {
    if steps == [] then 0.0 else Sum(Init(steps)) + Last(steps)
  }

  /** How often the bus turned round. */
  function Flips(g: Gait, total: real, steps: seq<real>): nat {
    if steps == [] then 0
    else
      Flips(g, total, Init(steps)) +
      if Run(g, total, steps).dir != Run(g, total, Init(steps)).dir then 1 else 0
  }

  /** The distance actually covered; a bus beyond the end is shown at the end. */
  function Moved(g: Gait, total: real, steps: seq<real>): real {
    if steps == [] then 0.0
    else Moved(g, total, Init(steps)) + Abs(Run(g, total, steps).d - Clip(Run(g, total, Init(steps)).d, total))
  }

  /** What the clamp at a terminus cuts off one step. */
  function Overshoot(g: Gait, total: real, step: real): real {
    var d := Clip(g.d, total) + g.dir as real * step;
    if d >= total then d - total else if d <= 0.0 then -d else 0.0
  }

  function Discarded(g: Gait, total: real, steps: seq<real>): real {
    if steps == [] then 0.0
    else Discarded(g, total, Init(steps)) + Overshoot(Run(g, total, Init(steps)), total, Last(steps))
  }

  predicate Steps(steps: seq<real>, most: real) {
    forall i | 0 <= i < |steps| :: 0.0 <= steps[i] <= most
  }

  lemma TickFacts(g: Gait, total: real, step: real)
    requires total >= 0.0 && Underway(g, total) && step >= 0.0
    ensures OnPath(Tick(g, total, step), total)
    ensures Abs(Tick(g, total, step).d - Clip(g.d, total)) + Overshoot(g, total, step) == step
    ensures 0.0 <= Overshoot(g, total, step)
  {
    assert g.dir as real * step == if g.dir == 1 then step else -step;
  }

  /** Nothing is lost: distance moved plus overshoot discarded at the termini is the sum of the
      steps, over any run and from any start the simulator draws. */
  lemma {:induction false} RunConserves(g: Gait, total: real, steps: seq<real>, most: real)
    requires total >= 0.0 && Underway(g, total) && Steps(steps, most)
    ensures Underway(Run(g, total, steps), total) && (steps != [] ==> OnPath(Run(g, total, steps), total))
    ensures Moved(g, total, steps) + Discarded(g, total, steps) == Sum(steps)
    ensures 0.0 <= Discarded(g, total, steps)
  {
    if steps != [] {
      RunConserves(g, total, Init(steps), most);
      TickFacts(Run(g, total, Init(steps)), total, Last(steps));
    }
  }

  /** `n` times `x`, added up. */
  function Times(n: nat, x: real): real {
    if n == 0 then 0.0 else Times(n - 1, x) + x
  }

  lemma {:induction false} TimesIsProduct(n: nat, x: real)
    ensures Times(n, x) == n as real * x
  {
    if n > 0 {
      TimesIsProduct(n - 1, x);
      assert (n - 1) as real * x + x == n as real * x;
    }
  }

  lemma {:induction false} TimesOrdered(j: nat, k: nat, x: real)
    requires j <= k && x >= 0.0
    ensures 0.0 <= Times(j, x) <= Times(k, x)
    decreases k
  {
    if j < k {
      TimesOrdered(j, k - 1, x);
    } else if k > 0 {
      TimesOrdered(k - 1, k - 1, x);
    }
  }

  /** The distance from the terminus the bus left last. */
  function FromTerminus(g: Gait, total: real): real {
    if g.dir == 1 then Clip(g.d, total) else total - Clip(g.d, total)
  }

  lemma TickTurns(g: Gait, total: real, step: real)
    requires total > 0.0 && Underway(g, total) && step >= 0.0
    ensures var h := Tick(g, total, step);
            && OnPath(h, total) && FromTerminus(h, total) < total
            && (h.dir != g.dir ==> FromTerminus(h, total) == 0.0 && FromTerminus(g, total) + step >= total)
            && (h.dir == g.dir ==> FromTerminus(h, total) == FromTerminus(g, total) + step)
  {
    assert g.dir as real * step == if g.dir == 1 then step else -step;
  }

  lemma {:induction false} LegsCount(g: Gait, total: real, steps: seq<real>, most: real)
    requires total > 0.0 && Underway(g, total) && Steps(steps, most) && most >= 0.0
    ensures var h, f := Run(g, total, steps), Flips(g, total, steps);
            && Underway(h, total)
            && (steps != [] ==> FromTerminus(h, total) < total)
            && Sum(steps) <= Times(f, total + most) + FromTerminus(h, total)
            && (f >= 1 ==> Times(f - 1, total) + FromTerminus(h, total) <= Sum(steps))
            && 0.0 <= Sum(steps)
  {
    if steps != [] {
      LegsCount(g, total, Init(steps), most);
      TickTurns(Run(g, total, Init(steps)), total, Last(steps));
      assert 0.0 <= Last(steps) <= most;
    }
  }

  lemma LegsAsProducts(f: nat, total: real, most: real, sum: real)
    requires 0.0 < total && 0.0 <= sum < Times(f, total + most) + total + most
    requires f >= 1 ==> Times(f - 1, total) <= sum
    ensures (f as real - 1.0) * total <= sum < (f as real + 1.0) * (total + most)
  {
    TimesIsProduct(f, total + most);
    if f >= 1 {
      TimesIsProduct(f - 1, total);
      assert (f - 1) as real == f as real - 1.0;
    }
  }

  /** Turns and distance bound each other: on a route of positive length, `f` turns need at least
      `f - 1` whole traversals, and each leg uses up less than one traversal and one step. */
  lemma FlipsBoundDistance(g: Gait, total: real, steps: seq<real>, most: real, f: nat)
    requires total > 0.0 && Underway(g, total) && Steps(steps, most) && most >= 0.0
    requires f == Flips(g, total, steps)
    ensures (f as real - 1.0) * total <= Sum(steps) < (f as real + 1.0) * (total + most)
  {
    assert 0.0 <= Sum(steps) < Times(f, total + most) + total + most
           && (f >= 1 ==> Times(f - 1, total) <= Sum(steps)) by {
      LegsCount(g, total, steps, most);
      TimesOrdered(0, f, total + most);
    }
    LegsAsProducts(f, total, most, Sum(steps));
  }

  lemma TickDiscards(g: Gait, total: real, step: real, most: real)
    requires total > 0.0 && Underway(g, total) && 0.0 <= step <= most
    ensures Overshoot(g, total, step) <= if Tick(g, total, step).dir != g.dir then most else 0.0
  {
    assert g.dir as real * step == if g.dir == 1 then step else -step;
  }

  lemma {:induction false} DiscardsAreTurns(g: Gait, total: real, steps: seq<real>, most: real)
    requires total > 0.0 && Underway(g, total) && Steps(steps, most)
    ensures Discarded(g, total, steps) <= Times(Flips(g, total, steps), most)
  {
    if steps != [] {
      DiscardsAreTurns(g, total, Init(steps), most);
      RunConserves(g, total, Init(steps), most);
      TickDiscards(Run(g, total, Init(steps)), total, Last(steps), most);
    }
  }

  /** So a run covers its steps, less at most one step for every turn. */
  lemma RunCovers(g: Gait, total: real, steps: seq<real>, most: real, f: nat)
    requires total > 0.0 && Underway(g, total) && Steps(steps, most)
    requires f == Flips(g, total, steps)
    ensures Sum(steps) - f as real * most <= Moved(g, total, steps) <= Sum(steps)
  {
    RunConserves(g, total, steps, most);
    DiscardsAreTurns(g, total, steps, most);
    TimesIsProduct(f, most);
  }

  // ----- Constant speed ------------------------------------------------------------------------

  /** The walk from the origin, heading out, after `k` equal steps. */
  function After(total: real, step: real, k: nat): Gait {
    if k == 0 then Gait(0.0, 1) else Tick(After(total, step, k - 1), total, step)
  }

  /** `n` steps are the fewest that reach the far end. */
  predicate IsTicksToCross(total: real, step: real, n: nat) {
    n >= 1 && Times(n - 1, step) < total <= Times(n, step)
  }

  /** Real division, rounded up. */
  function CeilDiv(total: real, step: real): int
    requires step > 0.0
  {
    -((-(total / step)).Floor)
  }

  lemma ScaleGapStrictly(k: real, x: real, y: real)
    requires k > 0.0 && x < y
    ensures k * x < k * y
  {
    assert k * (y - x) > 0.0;
    assert k * (y - x) == k * y - k * x;
  }

  lemma TimesBelow(n: nat, step: real, q: real)
    requires step > 0.0 && n as real < q
    ensures Times(n, step) < step * q
  {
    TimesIsProduct(n, step);
    ScaleGapStrictly(step, n as real, q);
    assert n as real * step == step * n as real;
  }

  lemma TimesAbove(n: nat, step: real, q: real)
    requires step > 0.0 && q <= n as real
    ensures step * q <= Times(n, step)
  {
    TimesIsProduct(n, step);
    ScaleGap(step, q, n as real);
    assert n as real * step == step * n as real;
  }

  lemma CrossingTicks(total: real, step: real)
    requires total > 0.0 && step > 0.0
    ensures CeilDiv(total, step) >= 1 && IsTicksToCross(total, step, CeilDiv(total, step))
  {
    var q, c := total / step, CeilDiv(total, step);
    assert step * q == total;
    assert q > 0.0;
    assert (c - 1) as real < q <= c as real;
    TimesBelow(c - 1, step, q);
    TimesAbove(c, step, q);
  }

  lemma {:induction false} WayOut(total: real, step: real, n: nat, k: nat)
    requires total > 0.0 && step > 0.0 && IsTicksToCross(total, step, n) && k < n
    ensures After(total, step, k) == Gait(Times(k, step), 1)
  {
    if k > 0 {
      WayOut(total, step, n, k - 1);
      TimesOrdered(k, n - 1, step);
      TimesOrdered(k - 1, k - 1, step);
      OneStepOut(total, step, Times(k - 1, step), Times(k, step));
    }
  }

  lemma OneStepOut(total: real, step: real, x: real, y: real)
    requires y == x + step && 0.0 < y
    ensures Tick(Gait(x, 1), total, step) == if y >= total then Gait(total, -1) else Gait(y, 1)
  {
    assert 1 as real * step == step;
  }

  lemma OneStepBack(total: real, step: real, x: real, y: real)
    requires y == x - step && y < total
    ensures Tick(Gait(x, -1), total, step) == if y <= 0.0 then Gait(0.0, 1) else Gait(y, -1)
  {
    assert -1 as real * step == -step;
  }

  lemma {:induction false} WayBack(total: real, step: real, n: nat, k: nat)
    requires total > 0.0 && step > 0.0 && IsTicksToCross(total, step, n) && k < n
    ensures After(total, step, n + k) == Gait(total - Times(k, step), -1)
  {
    if k == 0 {
      WayOut(total, step, n, n - 1);
      OneStepOut(total, step, Times(n - 1, step), Times(n, step));
    } else {
      WayBack(total, step, n, k - 1);
      TimesOrdered(k, n - 1, step);
      TimesOrdered(k - 1, k - 1, step);
      OneStepBack(total, step, total - Times(k - 1, step), total - Times(k, step));
    }
  }

  /** After out and back the bus is where it began, heading out again. */
  lemma RoundTrip(total: real, step: real, n: nat)
    requires total > 0.0 && step > 0.0 && IsTicksToCross(total, step, n)
    ensures After(total, step, 2 * n) == Gait(0.0, 1)
  {
    WayBack(total, step, n, n - 1);
    TimesOrdered(n - 1, n - 1, step);
    OneStepBack(total, step, total - Times(n - 1, step), total - Times(n, step));
    assert 2 * n == n + (n - 1) + 1;
  }

  lemma {:induction false} Repeats(total: real, step: real, p: nat, k: nat)
    requires After(total, step, p) == Gait(0.0, 1)
    ensures After(total, step, p + k) == After(total, step, k)
  {
    if k > 0 {
      Repeats(total, step, p, k - 1);
    }
  }

  /** How far tick `k` is into its lap of `p` ticks: `k` modulo `p`. */
  function Phase(p: nat, k: nat): (j: nat)
    requires p >= 1
    ensures j < p
  {
    if k < p then k else Phase(p, k - p)
  }

  lemma {:induction false} PhaseAfterLaps(p: nat, laps: nat, j: nat)
    requires j < p
    ensures Phase(p, laps * p + j) == j
  {
    if laps > 0 {
      assert laps * p + j == p + ((laps - 1) * p + j);
      PhaseAfterLaps(p, laps - 1, j);
    }
  }

  lemma PhaseIsRemainder(p: nat, k: nat)
    requires p >= 1
    ensures Phase(p, k) == k % p
  {
    assert k == k / p * p + k % p;
    PhaseAfterLaps(p, k / p, k % p);
  }

  lemma {:induction false} LapsDropOut(total: real, step: real, p: nat, k: nat)
    requires p >= 1 && After(total, step, p) == Gait(0.0, 1)
    ensures After(total, step, k) == After(total, step, Phase(p, k))
  {
    if k >= p {
      LapsDropOut(total, step, p, k - p);
      Repeats(total, step, p, k - p);
    }
  }

  function Min(x: real, y: real): real { if x <= y then x else y }

  function Max(x: real, y: real): real { if x >= y then x else y }

  /** Where the bus is `j` ticks into a lap of `2n`: min(total, j*step) on the way out and
      max(0, total - (j-n)*step) on the way back. */
  function InLap(total: real, step: real, n: nat, j: nat): Gait {
    if j < n then Gait(Min(total, Times(j, step)), 1)
    else Gait(Max(0.0, total - Times(j - n, step)), -1)
  }

  lemma FirstLap(total: real, step: real, n: nat, j: nat)
    requires total > 0.0 && step > 0.0 && IsTicksToCross(total, step, n) && j < 2 * n
    ensures After(total, step, j) == InLap(total, step, n, j)
  {
    if j < n {
      WayOut(total, step, n, j);
      TimesOrdered(j, n - 1, step);
    } else {
      WayBack(total, step, n, j - n);
      TimesOrdered(j - n, n - 1, step);
    }
  }

  /** The closed form of the walk after any number `k` of ticks: it repeats every `2n` ticks. */
  lemma ClosedForm(total: real, step: real, n: nat, k: nat)
    requires total > 0.0 && step > 0.0 && n == CeilDiv(total, step)
    ensures n >= 1 && After(total, step, k) == InLap(total, step, n, k % (2 * n))
  {
    CrossingTicks(total, step);
    RoundTrip(total, step, n);
    LapsDropOut(total, step, 2 * n, k);
    FirstLap(total, step, n, Phase(2 * n, k));
    PhaseIsRemainder(2 * n, k);
  }
}
