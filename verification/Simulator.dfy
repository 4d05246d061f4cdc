/** The simulator (simulator/runner.py): from assignments to walkers to publications, and from a
    publication to what the driver sees. */
module Simulator {
  import opened Schema
  import opened FixedPoint
  import opened Topic
  import opened Walk
  import WalkRun
  import opened Ingestion
  import opened AdminLaws
  import opened Seeding
  import opened SeedLaws
  import opened Tracking
  import opened System

  // ----- Assignments ---------------------------------------------------------------------------

  datatype Assigned = Assigned(user: int, vehicleId: int, waypoints: seq<Waypoint>)

  /** The row the join makes of a user that has both halves. */
  predicate Joins(db: Db, row: Assigned) {
    && row.user in db.users
    && HoldsVehicle(db.users[row.user], row.vehicleId) && row.vehicleId in db.vehicles
    && db.users[row.user].routeId.Some? && db.users[row.user].routeId.value in db.routes
    && db.routes[db.users[row.user].routeId.value].waypoints == row.waypoints
  }

  predicate InJoin(db: Db, u: int) {
    && u in db.users
    && db.users[u].routeId.Some? && db.users[u].routeId.value in db.routes
    && db.users[u].vehicleId.Some? && db.users[u].vehicleId.value in db.vehicles
  }

  /** The query result in whatever order: one row for every assigned user. */
  ghost predicate Loaded(db: Db, rows: seq<Assigned>) {
    && (forall i | 0 <= i < |rows| :: Joins(db, rows[i]))
    && (forall i, j | 0 <= i < j < |rows| :: rows[i].user != rows[j].user)
    && (forall u | InJoin(db, u) :: exists i :: 0 <= i < |rows| && rows[i].user == u)
  }

  method LoadAssignments(db: Session) returns (rows: seq<Assigned>)
    requires KeysDrawn(db.users, db.nextUser)
    ensures Loaded(db.State(), rows)
  {
    rows := [];
    for u := 1 to db.nextUser
      invariant forall i | 0 <= i < |rows| :: Joins(db.State(), rows[i]) && rows[i].user < u
      invariant forall i, j | 0 <= i < j < |rows| :: rows[i].user != rows[j].user
      invariant forall w | InJoin(db.State(), w) && w < u :: exists i :: 0 <= i < |rows| && rows[i].user == w
    {
      ghost var before := rows;
      if u in db.users {
        var user := db.users[u];
        if user.routeId.Some? && user.vehicleId.Some?
           && user.routeId.value in db.routes && user.vehicleId.value in db.vehicles {
          rows := rows + [Assigned(u, user.vehicleId.value, db.routes[user.routeId.value].waypoints)];
          assert rows[|before|].user == u;
        }
      }
      forall w | InJoin(db.State(), w) && w < u + 1 ensures exists i :: 0 <= i < |rows| && rows[i].user == w {
        if w != u {
          var i :| 0 <= i < |before| && before[i].user == w;
          assert rows[i].user == w;
        }
      }
    }
  }

  /** Every row of a sound database can be walked and published. */
  lemma RowsWalkable(db: Db, rows: seq<Assigned>)
    requires Sound(db) && Loaded(db, rows)
    ensures forall i | 0 <= i < |rows| :: rows[i].vehicleId >= 1 && ValidWaypoints(rows[i].waypoints)
  {
    forall i | 0 <= i < |rows| ensures rows[i].vehicleId >= 1 && ValidWaypoints(rows[i].waypoints) {
      assert Joins(db, rows[i]);
      var v: int, r: int := rows[i].vehicleId, db.users[rows[i].user].routeId.value;
      assert v in db.vehicles && r in db.routes;
    }
  }

  /** In a proper database each assigned vehicle gets exactly one walker, on a walkable route. */
  lemma OneWalkerPerVehicle(db: Db, rows: seq<Assigned>)
    requires Proper(db) && Loaded(db, rows)
    ensures forall i | 0 <= i < |rows| :: rows[i].vehicleId >= 1 && ValidWaypoints(rows[i].waypoints)
    ensures forall i, j | 0 <= i < j < |rows| :: rows[i].vehicleId != rows[j].vehicleId
    ensures forall v :: VehicleHeld(db.users, v) <==> exists i :: 0 <= i < |rows| && rows[i].vehicleId == v
  {
    RowsWalkable(db, rows);
    forall v ensures VehicleHeld(db.users, v) <==> exists i :: 0 <= i < |rows| && rows[i].vehicleId == v {
      if VehicleHeld(db.users, v) {
        var u :| u in db.users && HoldsVehicle(db.users[u], v);
        assert PairComplete(db.users[u]) && InJoin(db, u);
        var i :| 0 <= i < |rows| && rows[i].user == u;
        assert rows[i].vehicleId == v;
      }
      if exists i :: 0 <= i < |rows| && rows[i].vehicleId == v {
        var i :| 0 <= i < |rows| && rows[i].vehicleId == v;
        assert Joins(db, rows[i]);
      }
    }
  }

  // ----- One tick ------------------------------------------------------------------------------

  /** What the random generator yields for one bus and tick. */
  datatype Draw = Draw(chance: real, jitter: real)

  predicate DrawOk(d: Draw) {
    0.0 <= d.chance < 1.0 && -6.0 <= d.jitter <= 6.0
  }

  const HALT_PROBABILITY := 0.05

  predicate BaseOk(base: real) {
    18.0 <= base <= 42.0
  }

  function NextSpeed(base: real, d: Draw): real {
    if d.chance < HALT_PROBABILITY then 0.0
    else if base + d.jitter > 0.0 then base + d.jitter else 0.0
  }

  datatype Publication = Publication(topic: string, payload: Payload)

  function FixFor(prefix: string, v: int, at: Waypoint, speed: real, timestamp: int): Publication
    requires v >= 1
  {
    Publication(
      GpsTopic(prefix, v),
      Record(v,
             RoundHalfEven(at.lat * 1000000.0) as real / 1000000.0,
             RoundHalfEven(at.lng * 1000000.0) as real / 1000000.0,
             RoundHalfEven(speed * 10.0) as real / 10.0,
             timestamp, true))
  }

  /** The row that holds exactly what was published: whole millionths, and tenths of a km/h. */
  function PublishedRow(at: Waypoint, speed: real, timestamp: int): Fix {
    Fix(RoundHalfEven(at.lat * 1000000.0), RoundHalfEven(at.lng * 1000000.0),
        10 * RoundHalfEven(speed * 10.0), timestamp)
  }

  /** The message a published fix decodes to, and what the columns make of it: positions and speed
      are stored exactly as published. */
  lemma PublishedIsStored(prefix: string, v: int, at: Waypoint, speed: real, timestamp: int)
    requires v >= 1 && InBounds(at) && 0.0 <= speed <= 300.0
    ensures var m := ParsePayload(FixFor(prefix, v, at, speed, timestamp).payload);
            && m.Some? && InContract(m.value) && m.value.vehicleId == v
            && Quantised(m.value) == PublishedRow(at, speed, timestamp)
  {
    var lat, lng := RoundHalfEven(at.lat * 1000000.0), RoundHalfEven(at.lng * 1000000.0);
    var s := RoundHalfEven(speed * 10.0);
    RoundsNearest(at.lat * 1000000.0, -90000000, 90000000);
    RoundsNearest(at.lng * 1000000.0, -180000000, 180000000);
    RoundsNearest(speed * 10.0, 0, 3000);
    StoringIsExact(lat);
    StoringIsExact(lng);
    StoringIsExact(10 * s);
    assert lat as real / 1000000.0 * 1000000.0 == lat as real;
    assert lng as real / 1000000.0 * 1000000.0 == lng as real;
    assert s as real / 10.0 * 100.0 == (10 * s) as real;
  }

  /** A bus halts exactly when its draw is below 0.05, and otherwise goes at its base speed changed by the
      jitter drawn, within six km/h of it. */
  lemma SpeedInBand(base: real, d: Draw)
    requires BaseOk(base) && DrawOk(d)
    ensures 0.0 <= NextSpeed(base, d) <= 48.0
    ensures d.chance >= 0.05 ==> NextSpeed(base, d) == base + d.jitter && -6.0 <= NextSpeed(base, d) - base <= 6.0
    ensures if d.chance < 0.05 then NextSpeed(base, d) == 0.0 else NextSpeed(base, d) >= 12.0
  {
  }

  /** Whatever the base speed, a bus either stands or goes at the base speed changed by the jitter, and never
      backwards. */
  lemma SpeedExactly(base: real, d: Draw)
    ensures NextSpeed(base, d) > 0.0 <==> d.chance >= 0.05 && base + d.jitter > 0.0
    ensures NextSpeed(base, d) > 0.0 ==> NextSpeed(base, d) == base + d.jitter
    ensures NextSpeed(base, d) >= 0.0
  {
  }

  /** A walker is on its way: its table fits its valid route, and it is not before the origin. */
  predicate Ready(w: BusWalker)
    reads w
  {
    w.Valid() && ValidWaypoints(w.waypoints) && w.distanceM >= 0.0
  }

  /** The body of one tick for one bus. The fix is checked against the ingestion contract before
      it is published; the check never fails. */
  method PublishOne(w: BusWalker, v: int, base: real, d: Draw, interval: int, timestamp: int, prefix: string)
    returns (p: Publication)
    requires Ready(w) && v >= 1 && BaseOk(base) && DrawOk(d)
    modifies w
    ensures Ready(w) && w.cumulative == old(w.cumulative)
    ensures w.State() == Tick(old(w.State()), w.TotalM(), StepLength(NextSpeed(base, d), interval as real))
    ensures p == FixFor(prefix, v, w.Position(), NextSpeed(base, d), timestamp)
    ensures ParsePayload(p.payload).Some?
  {
    var speed := NextSpeed(base, d);
    SpeedInBand(base, d);
    assert w.TotalM() >= 0.0;
    WalkRun.TickLandsOnPath(w.State(), w.TotalM(), StepLength(speed, interval as real));
    w.Advance(speed, interval as real);
    var at := w.Position();
    PositionInBounds(w.waypoints, w.cumulative, w.distanceM);
    p := FixFor(prefix, v, at, speed, timestamp);
    PublishedIsStored(prefix, v, at, speed, timestamp);
    var checked := ParsePayload(p.payload);
    assert checked.Some?;
  }

  /** All walkers can be built from what a sound database loads. */
  method BuildWalkers(rows: seq<Assigned>, starts: seq<real>, dist: Distance) returns (walkers: seq<BusWalker>)
    requires |starts| == |rows| && IsDistance(dist)
    requires forall i | 0 <= i < |rows| :: ValidWaypoints(rows[i].waypoints) && 0.0 <= starts[i] <= 500.0
    ensures |walkers| == |rows|
    ensures forall i | 0 <= i < |walkers| ::
              && fresh(walkers[i]) && Ready(walkers[i]) && walkers[i].waypoints == rows[i].waypoints
              && walkers[i].State() == Gait(starts[i], 1)
              && MeasuresPath(rows[i].waypoints, dist, walkers[i].cumulative)
    ensures forall i, j | 0 <= i < j < |walkers| :: walkers[i] != walkers[j]
  {
    walkers := [];
    for i := 0 to |rows|
      invariant |walkers| == i
      invariant forall j | 0 <= j < i ::
                  && fresh(walkers[j]) && Ready(walkers[j]) && walkers[j].waypoints == rows[j].waypoints
                  && walkers[j].State() == Gait(starts[j], 1)
                  && MeasuresPath(rows[j].waypoints, dist, walkers[j].cumulative)
      invariant forall j, k | 0 <= j < k < i :: walkers[j] != walkers[k]
    {
      var w := BusWalker.Create(rows[i].waypoints, starts[i], 1, dist);
      walkers := walkers + [w.value];
    }
  }

  /** One round: every bus ticks once and publishes once, in order, and none disturbs another. */
  method PublishRound(walkers: seq<BusWalker>, vids: seq<int>, bases: map<int, real>, draws: seq<Draw>,
                      interval: int, clock: seq<int>, prefix: string)
    returns (published: seq<Publication>)
    requires |vids| == |draws| == |clock| == |walkers|
    requires forall i, j | 0 <= i < j < |walkers| :: walkers[i] != walkers[j]
    requires forall i | 0 <= i < |walkers| ::
               Ready(walkers[i]) && vids[i] >= 1 && DrawOk(draws[i]) && vids[i] in bases && BaseOk(bases[vids[i]])
    modifies walkers
    ensures |published| == |walkers|
    ensures forall i | 0 <= i < |walkers| ::
              && Ready(walkers[i]) && walkers[i].cumulative == old(walkers[i].cumulative)
              && walkers[i].State() == Tick(old(walkers[i].State()), walkers[i].TotalM(),
                                            StepLength(NextSpeed(bases[vids[i]], draws[i]), interval as real))
              && published[i] == FixFor(prefix, vids[i], walkers[i].Position(),
                                        NextSpeed(bases[vids[i]], draws[i]), clock[i])
              && ParsePayload(published[i].payload).Some?
  {
    published := [];
    for i := 0 to |walkers|
      invariant |published| == i
      invariant forall j | i <= j < |walkers| ::
                  Ready(walkers[j]) && walkers[j].State() == old(walkers[j].State())
                  && walkers[j].cumulative == old(walkers[j].cumulative)
      invariant forall j | 0 <= j < i ::
                  && Ready(walkers[j]) && walkers[j].cumulative == old(walkers[j].cumulative)
                  && walkers[j].State() == Tick(old(walkers[j].State()), walkers[j].TotalM(),
                                                StepLength(NextSpeed(bases[vids[j]], draws[j]), interval as real))
                  && published[j] == FixFor(prefix, vids[j], walkers[j].Position(),
                                            NextSpeed(bases[vids[j]], draws[j]), clock[j])
                  && ParsePayload(published[j].payload).Some?
    {
      var p := PublishOne(walkers[i], vids[i], bases[vids[i]], draws[i], interval, clock[i], prefix);
      published := published + [p];
    }
  }

  // ----- Round after round ---------------------------------------------------------------------

  /** One bus as the loop begins: its vehicle, base speed and path, and where it starts. */
  datatype Bus = Bus(v: int, base: real, waypoints: seq<Waypoint>, cum: seq<real>, start: Gait) {
    predicate Valid() {
      v >= 1 && BaseOk(base) && Table(cum) && |waypoints| == |cum|
    }
  }

  predicate DrawnFor(draws: seq<seq<Draw>>, j: nat) {
    forall r | 0 <= r < |draws| :: j < |draws[r]|
  }

  /** The steps of bus `j` over some rounds, from the draws made for it. */
  function StepsOf(base: real, draws: seq<seq<Draw>>, j: nat, interval: int): seq<real>
    requires DrawnFor(draws, j)
  {
    seq(|draws|, r requires 0 <= r < |draws| => StepLength(NextSpeed(base, draws[r][j]), interval as real))
  }

  /** Where a bus is after some steps. */
  function WalkedTo(ws: seq<Waypoint>, cum: seq<real>, g: Gait, steps: seq<real>): Waypoint
    requires Table(cum) && |ws| == |cum|
  {
    PositionAt(ws, cum, WalkRun.Run(g, Total(cum), steps).d)
  }

  lemma RunOneMore(g: Gait, total: real, steps: seq<real>, step: real)
    ensures WalkRun.Run(g, total, steps + [step]) == Tick(WalkRun.Run(g, total, steps), total, step)
  {
    assert WalkRun.Init(steps + [step]) == steps;
  }

  lemma StepsGrow(base: real, draws: seq<seq<Draw>>, j: nat, interval: int, r: nat)
    requires r < |draws| && DrawnFor(draws, j)
    ensures StepsOf(base, draws[..r + 1], j, interval) ==
              StepsOf(base, draws[..r], j, interval) + [StepLength(NextSpeed(base, draws[r][j]), interval as real)]
  {
  }

  /** What a round needs: one draw and one clock reading per bus. */
  predicate RoundOk(n: nat, draws: seq<Draw>, clock: seq<int>) {
    |draws| == |clock| == n && forall i | 0 <= i < n :: DrawOk(draws[i])
  }

  predicate RoundsOk(n: nat, draws: seq<seq<Draw>>, clock: seq<seq<int>>) {
    |draws| == |clock| && forall r | 0 <= r < |draws| :: RoundOk(n, draws[r], clock[r])
  }

  /** The bus has made one step for every round so far. */
  predicate OnSchedule(w: BusWalker, b: Bus, draws: seq<seq<Draw>>, j: nat, interval: int)
    reads w
  {
    && Ready(w) && b.Valid() && DrawnFor(draws, j)
    && w.waypoints == b.waypoints && w.cumulative == b.cum
    && w.State() == WalkRun.Run(b.start, Total(b.cum), StepsOf(b.base, draws, j, interval))
  }

  predicate AllOnSchedule(walkers: seq<BusWalker>, buses: seq<Bus>, draws: seq<seq<Draw>>, interval: int)
    reads walkers
  {
    |walkers| == |buses| && forall i: nat | i < |walkers| :: OnSchedule(walkers[i], buses[i], draws, i, interval)
  }

  /** A round's publications: each for where the steps of all rounds so far have brought the bus. */
  predicate RoundPublished(round: seq<Publication>, buses: seq<Bus>, draws: seq<seq<Draw>>, interval: int,
                           clock: seq<int>, prefix: string)
  {
    && |round| == |clock| == |buses| && draws != []
    && forall i: nat | i < |buses| ::
         && buses[i].Valid() && DrawnFor(draws, i)
         && round[i] == FixFor(prefix, buses[i].v,
                               WalkedTo(buses[i].waypoints, buses[i].cum, buses[i].start,
                                        StepsOf(buses[i].base, draws, i, interval)),
                               NextSpeed(buses[i].base, draws[|draws| - 1][i]), clock[i])
  }

  lemma OneRound(w: BusWalker, b: Bus, before: Gait, draws: seq<seq<Draw>>, j: nat, interval: int, r: nat)
    requires b.Valid() && r < |draws| && DrawnFor(draws, j)
    requires before == WalkRun.Run(b.start, Total(b.cum), StepsOf(b.base, draws[..r], j, interval))
    requires Ready(w) && w.waypoints == b.waypoints && w.cumulative == b.cum
    requires w.State() == Tick(before, Total(b.cum), StepLength(NextSpeed(b.base, draws[r][j]), interval as real))
    ensures OnSchedule(w, b, draws[..r + 1], j, interval)
    ensures w.Position() == WalkedTo(b.waypoints, b.cum, b.start, StepsOf(b.base, draws[..r + 1], j, interval))
  {
    StepsGrow(b.base, draws, j, interval, r);
    RunOneMore(b.start, Total(b.cum), StepsOf(b.base, draws[..r], j, interval),
               StepLength(NextSpeed(b.base, draws[r][j]), interval as real));
  }

  lemma AllDrawn(n: nat, draws: seq<seq<Draw>>, clock: seq<seq<int>>, j: nat)
    requires RoundsOk(n, draws, clock) && j < n
    ensures DrawnFor(draws, j)
  {
    forall r | 0 <= r < |draws| ensures j < |draws[r]| {
      assert RoundOk(n, draws[r], clock[r]);
    }
  }

  predicate BusesMatch(buses: seq<Bus>, vids: seq<int>, bases: map<int, real>) {
    && |buses| == |vids|
    && forall i: nat | i < |buses| ::
         buses[i].Valid() && buses[i].v == vids[i] && vids[i] in bases && buses[i].base == bases[vids[i]]
  }

  predicate AllDifferent(walkers: seq<BusWalker>) {
    forall i, j | 0 <= i < j < |walkers| :: walkers[i] != walkers[j]
  }

  /** Round `r`, after the rounds before it. */
  method PublishNextRound(walkers: seq<BusWalker>, vids: seq<int>, bases: map<int, real>, ghost draws: seq<seq<Draw>>,
                          drawn: seq<Draw>, interval: int, ghost clock: seq<seq<int>>, now: seq<int>, prefix: string,
                          ghost buses: seq<Bus>, ghost r: nat)
    returns (round: seq<Publication>)
    requires RoundsOk(|walkers|, draws, clock) && BusesMatch(buses, vids, bases)
    requires r < |draws| && drawn == draws[r] && now == clock[r]
    requires AllDifferent(walkers)
    requires AllOnSchedule(walkers, buses, draws[..r], interval)
    modifies walkers
    ensures AllOnSchedule(walkers, buses, draws[..r + 1], interval)
    ensures RoundPublished(round, buses, draws[..r + 1], interval, now, prefix)
  {
    assert RoundOk(|walkers|, draws[r], clock[r]);
    assert forall i: nat | i < |walkers| :: OnSchedule(walkers[i], buses[i], draws[..r], i, interval);
    round := PublishRound(walkers, vids, bases, drawn, interval, now, prefix);
    forall i: nat | i < |walkers|
      ensures OnSchedule(walkers[i], buses[i], draws[..r + 1], i, interval)
      ensures walkers[i].Position() == WalkedTo(buses[i].waypoints, buses[i].cum, buses[i].start,
                                                StepsOf(buses[i].base, draws[..r + 1], i, interval))
    {
      AllDrawn(|walkers|, draws, clock, i);
      OneRound(walkers[i], buses[i], old(walkers[i].State()), draws, i, interval, r);
    }
  }

  /** What was published in the rounds so far. */
  predicate RoundsPublished(published: seq<seq<Publication>>, buses: seq<Bus>, draws: seq<seq<Draw>>, interval: int,
                            clock: seq<seq<int>>, prefix: string)
  {
    && |published| <= |draws| == |clock|
    && forall r: nat | r < |published| ::
         RoundPublished(published[r], buses, draws[..r + 1], interval, clock[r], prefix)
  }

  lemma OneRoundMore(published: seq<seq<Publication>>, round: seq<Publication>, buses: seq<Bus>,
                     draws: seq<seq<Draw>>, interval: int, clock: seq<seq<int>>, prefix: string)
    requires RoundsPublished(published, buses, draws, interval, clock, prefix) && |published| < |draws|
    requires RoundPublished(round, buses, draws[..|published| + 1], interval, clock[|published|], prefix)
    ensures RoundsPublished(published + [round], buses, draws, interval, clock, prefix)
  {
    hide RoundPublished;
  }

  lemma NoneAndAll<T>(s: seq<T>)
    ensures s[..0] == [] && s[..|s|] == s
  {
  }

  /** The publishing loop, round after round: every bus makes the run of the steps drawn for it, and each
      of its fixes is the one for where this run has brought it. `buses` says how the loop begins. */
  method PublishRounds(walkers: seq<BusWalker>, vids: seq<int>, bases: map<int, real>, draws: seq<seq<Draw>>,
                       interval: int, clock: seq<seq<int>>, prefix: string, ghost buses: seq<Bus>)
    returns (published: seq<seq<Publication>>)
    requires RoundsOk(|walkers|, draws, clock) && BusesMatch(buses, vids, bases)
    requires AllDifferent(walkers)
    requires AllOnSchedule(walkers, buses, [], interval)
    modifies walkers
    ensures AllOnSchedule(walkers, buses, draws, interval)
    ensures |published| == |draws| && RoundsPublished(published, buses, draws, interval, clock, prefix)
  {
    published := [];
    NoneAndAll(draws);
    for r := 0 to |draws|
      invariant AllOnSchedule(walkers, buses, draws[..r], interval)
      invariant |published| == r && RoundsPublished(published, buses, draws, interval, clock, prefix)
    {
      var round := PublishNextRound(walkers, vids, bases, draws, draws[r], interval, clock, clock[r], prefix, buses, r);
      OneRoundMore(published, round, buses, draws, interval, clock, prefix);
      published := published + [round];
    }
  }

  // ----- End to end ----------------------------------------------------------------------------

  /** Whatever the start and the steps, a walker on a valid route is always within bounds. */
  lemma {:induction false} AlwaysInBounds(ws: seq<Waypoint>, cum: seq<real>, g: Gait, steps: seq<real>)
    requires Table(cum) && |ws| == |cum| && ValidWaypoints(ws) && g.d >= 0.0
    ensures WalkRun.Run(g, Total(cum), steps).d >= 0.0
    ensures InBounds(PositionAt(ws, cum, WalkRun.Run(g, Total(cum), steps).d))
  {
    assert Total(cum) >= 0.0;
    if steps != [] {
      WalkRun.TickLandsOnPath(WalkRun.Run(g, Total(cum), WalkRun.Init(steps)), Total(cum), WalkRun.Last(steps));
    }
    PositionInBounds(ws, cum, WalkRun.Run(g, Total(cum), steps).d);
  }

  /** The subscriber accepts a published fix of an active vehicle. */
  lemma PublishedIsAccepted(s: Sys, v: int, at: Waypoint, speed: real, timestamp: int)
    requires Invariant(s) && s.pending.None? && '/' !in s.prefix
    requires Active(s.db, v) && v <= BIGINT_MAX && InBounds(at) && 0.0 <= speed <= 300.0
    ensures v >= 1
    ensures var p := FixFor(s.prefix, v, at, speed, timestamp);
            var next := Step(s, Deliver(p.topic, p.payload));
            && next.pending.Some? && next.db == s.db
            && Some(next.pending.value.message) == ParsePayload(p.payload)
  {
    TopicRoundTrip(s.prefix, v);
    BigintPrints(v);
    PublishedIsStored(s.prefix, v, at, speed, timestamp);
  }

  /** After a fresh seeding every demo driver's bus is heard: a fix published for its vehicle is taken in. */
  lemma DemoFleetIsHeard(s: Sys, i: nat, at: Waypoint, speed: real, timestamp: int) returns (u: int, v: int)
    requires Invariant(s) && s.pending.None? && '/' !in s.prefix && i < |DEMO_DRIVERS|
    requires InBounds(at) && 0.0 <= speed <= 300.0
    ensures var after := Step(Step(s, Truncated), Seeded);
            && u in after.db.users && after.db.users[u].email == DEMO_DRIVERS[i].email
            && after.db.users[u].vehicleId == Some(v)
            && v in after.db.vehicles && v >= 1 && after.db.vehicles[v].code == DEMO_DRIVERS[i].code
            && (v <= BIGINT_MAX ==>
                  var p := FixFor(s.prefix, v, at, speed, timestamp);
                  Step(after, Deliver(p.topic, p.payload)).pending.Some?)
  {
    var wiped := Step(s, Truncated);
    var after := Step(wiped, Seeded);
    StepKeepsInvariant(s, Truncated);
    StepKeepsInvariant(wiped, Seeded);
    u := FreshSeedPairs(s.db, i);
    v := after.db.users[u].vehicleId.value;
    WipeEmpties(s.db);
    SeedAddsExactly(wiped.db);
    assert Active(after.db, v);
    if v <= BIGINT_MAX {
      PublishedIsAccepted(after, v, at, speed, timestamp);
    }
  }

  /** Steps that may run while the subscriber's transaction is open. */
  predicate WhileOpen(events: seq<Event>) {
    forall i | 0 <= i < |events| :: events[i].Deliver? || events[i].Admin? || events[i].Truncated? || events[i].Seeded?
  }

  lemma {:induction false} PendingWaits(s: Sys, events: seq<Event>)
    requires s.pending.Some? && WhileOpen(events)
    ensures Run(s, events).pending == s.pending
  {
    if events != [] {
      PendingWaits(s, events[..|events| - 1]);
    }
  }

  /** End to end: a fix published for a vehicle that is active when the message is read, and still
      there at commit, is stored exactly as published, whatever admins do in between. */
  lemma PublishedIsKept(s: Sys, v: int, at: Waypoint, speed: real, timestamp: int, events: seq<Event>)
    requires Invariant(s) && s.pending.None? && '/' !in s.prefix
    requires v >= 1 && Active(s.db, v) && v <= BIGINT_MAX && InBounds(at) && 0.0 <= speed <= 300.0
    requires WhileOpen(events)
    ensures var p := FixFor(s.prefix, v, at, speed, timestamp);
            var open := Run(Step(s, Deliver(p.topic, p.payload)), events);
            && Invariant(open)
            && (v in open.db.vehicles ==>
                  Step(open, Commit).db.points ==
                    open.db.points + [GpsPoint(open.db.nextPoint, v, PublishedRow(at, speed, timestamp))])
  {
    var p := FixFor(s.prefix, v, at, speed, timestamp);
    var read := Step(s, Deliver(p.topic, p.payload));
    PublishedIsAccepted(s, v, at, speed, timestamp);
    PublishedIsStored(s.prefix, v, at, speed, timestamp);
    StepKeepsInvariant(s, Deliver(p.topic, p.payload));
    RunKeepsInvariant(read, events);
    PendingWaits(read, events);
    CommitRefusedExactly(Run(read, events));
  }

  /** And if it is newer than what the vehicle had, and the vehicle still has a driver at commit, its
      driver then sees it, moving exactly when the published speed is above five km/h. */
  lemma PublishedIsSeen(s: Sys, v: int, at: Waypoint, speed: real, timestamp: int, events: seq<Event>,
                        u: int, now: int)
    requires Invariant(s) && s.pending.None? && '/' !in s.prefix
    requires v >= 1 && Active(s.db, v) && v <= BIGINT_MAX && InBounds(at) && 0.0 <= speed <= 300.0
    requires WhileOpen(events) && timestamp <= now <= timestamp + STALE_AFTER
    requires v in s.db.current ==> timestamp > s.db.current[v].recordedAt
    requires var p := FixFor(s.prefix, v, at, speed, timestamp);
             var open := Run(Step(s, Deliver(p.topic, p.payload)), events).db;
             u in open.users && HoldsVehicle(open.users[u], v)
    ensures var p := FixFor(s.prefix, v, at, speed, timestamp);
            var after := Step(Run(Step(s, Deliver(p.topic, p.payload)), events), Commit).db;
            var row := PublishedRow(at, speed, timestamp);
            && u in after.users && v in after.vehicles
            && GetCurrentLocation(after, after.users[u], now) ==
                 Ok(VehicleLive(v, after.vehicles[v].code, Some(row.lat), Some(row.lng), Some(row.speed),
                                Some(timestamp), if RoundHalfEven(speed * 10.0) > 50 then Moving else Idle))
  {
    var p := FixFor(s.prefix, v, at, speed, timestamp);
    var read := Step(s, Deliver(p.topic, p.payload));
    var open := Run(read, events);
    PublishedIsAccepted(s, v, at, speed, timestamp);
    PublishedIsStored(s.prefix, v, at, speed, timestamp);
    StepKeepsInvariant(s, Deliver(p.topic, p.payload));
    RunKeepsInvariant(read, events);
    PendingWaits(read, events);
    SeenAfterCommit(open, read.pending.value, u, now);
  }

  /** A newer fix of a vehicle that has a driver: its row is what the driver sees. */
  lemma SeenAfterCommit(open: Sys, p: PendingFix, u: int, now: int)
    requires Invariant(open) && open.pending == Some(p) && Overwrites(p)
    requires u in open.db.users && HoldsVehicle(open.db.users[u], p.message.vehicleId)
    requires p.message.timestamp <= now <= p.message.timestamp + STALE_AFTER
    ensures var v, after, row := p.message.vehicleId, Step(open, Commit).db, Quantised(p.message);
            && u in after.users && v in after.vehicles
            && GetCurrentLocation(after, after.users[u], now) ==
                 Ok(VehicleLive(v, after.vehicles[v].code, Some(row.lat), Some(row.lng), Some(row.speed),
                                Some(row.recordedAt), if row.speed > 500 then Moving else Idle))
  {
    var v: int := p.message.vehicleId;
    assert v in open.db.vehicles;
    CommitKeepsSound(open.db, p);
  }

  /** One walker of a loaded simulator, after any run of steps: where it is. */
  function WalkerAt(row: Assigned, cum: seq<real>, start: real, steps: seq<real>): Waypoint
    requires Table(cum) && |row.waypoints| == |cum|
  {
    WalkedTo(row.waypoints, cum, Gait(start, 1), steps)
  }

  /** A walker built for a row of a sound database, even one with shared routes or vehicles; its
      start may lie beyond the end of its route. */
  ghost predicate Built(loaded: Db, rows: seq<Assigned>, i: nat, cum: seq<real>, dist: Distance, start: real) {
    && Sound(loaded) && Loaded(loaded, rows) && i < |rows|
    && MeasuresPath(rows[i].waypoints, dist, cum) && IsDistance(dist) && 0.0 <= start
  }

  /** The walker can be built, and is always within bounds. */
  lemma BuiltWalks(loaded: Db, rows: seq<Assigned>, i: nat, cum: seq<real>, dist: Distance, start: real,
                   steps: seq<real>)
    requires Built(loaded, rows, i, cum, dist, start)
    ensures |rows[i].waypoints| >= 2 && rows[i].vehicleId >= 1 && Table(cum)
    ensures InBounds(WalkerAt(rows[i], cum, start, steps))
  {
    RowsWalkable(loaded, rows);
    MeasuredIsTable(rows[i].waypoints, dist, cum);
    AlwaysInBounds(rows[i].waypoints, cum, Gait(start, 1), steps);
  }

  /** For every walker loaded from a sound database: it can be built, and after any run of steps the
      fix it publishes passes the contract, its topic names its vehicle, and the subscriber takes it in
      while the vehicle is active. */
  lemma SimulatorHonoursContract(s: Sys, loaded: Db, rows: seq<Assigned>, i: nat, cum: seq<real>, dist: Distance,
                                 start: real, steps: seq<real>, base: real, d: Draw, timestamp: int)
    requires Built(loaded, rows, i, cum, dist, start) && BaseOk(base) && DrawOk(d)
    requires Invariant(s) && s.pending.None? && '/' !in s.prefix
    requires Active(s.db, rows[i].vehicleId) && rows[i].vehicleId <= BIGINT_MAX
    ensures |rows[i].waypoints| >= 2 && rows[i].vehicleId >= 1 && Table(cum)
    ensures var at, speed := WalkerAt(rows[i], cum, start, steps), NextSpeed(base, d);
            var p := FixFor(s.prefix, rows[i].vehicleId, at, speed, timestamp);
            && InBounds(at) && 0.0 <= speed <= 48.0
            && ParsePayload(p.payload).Some? && ParseTopic(p.topic, s.prefix) == Some(rows[i].vehicleId)
            && Step(s, Deliver(p.topic, p.payload)).pending.Some?
  {
    BuiltWalks(loaded, rows, i, cum, dist, start, steps);
    SpeedInBand(base, d);
    PublishedIsAccepted(s, rows[i].vehicleId, WalkerAt(rows[i], cum, start, steps), NextSpeed(base, d), timestamp);
    TopicRoundTrip(s.prefix, rows[i].vehicleId);
    BigintPrints(rows[i].vehicleId);
  }

  lemma InvariantIsSound(s: Sys)
    requires Invariant(s)
    ensures Sound(s.db)
  {
  }

  /** The whole way. The system runs from the empty database until the simulator loads its rows; it
      runs on while the walkers walk; one of them publishes a fix, which is delivered while its vehicle
      is active; and other events come between the read and the commit. If the vehicle is still there,
      history grows by exactly what was published. */
  lemma SimulatedFixIsStored(prefix: string, toLoad: seq<Event>, rows: seq<Assigned>, i: nat, cum: seq<real>,
                             dist: Distance, start: real, steps: seq<real>, base: real, d: Draw, timestamp: int,
                             onward: seq<Event>, meanwhile: seq<Event>)
    requires '/' !in prefix
    requires Loaded(Run(Start(prefix), toLoad).db, rows) && i < |rows|
    requires MeasuresPath(rows[i].waypoints, dist, cum) && IsDistance(dist) && 0.0 <= start
    requires BaseOk(base) && DrawOk(d) && WhileOpen(meanwhile)
    requires var s := Run(Run(Start(prefix), toLoad), onward);
             s.pending.None? && Active(s.db, rows[i].vehicleId) && rows[i].vehicleId <= BIGINT_MAX
    ensures |rows[i].waypoints| >= 2 && rows[i].vehicleId >= 1 && Table(cum)
    ensures var at, speed, v := WalkerAt(rows[i], cum, start, steps), NextSpeed(base, d), rows[i].vehicleId;
            var p := FixFor(prefix, v, at, speed, timestamp);
            var s := Run(Run(Start(prefix), toLoad), onward);
            var open := Run(Step(s, Deliver(p.topic, p.payload)), meanwhile);
            v in open.db.vehicles ==>
              Step(open, Commit).db.points ==
                open.db.points + [GpsPoint(open.db.nextPoint, v, PublishedRow(at, speed, timestamp))]
  {
    hide Run, Loaded, Invariant, WhileOpen, WalkerAt, FixFor, PublishedRow;
    var load := Run(Start(prefix), toLoad);
    var s := Run(load, onward);
    StartHolds(prefix);
    RunKeepsInvariant(Start(prefix), toLoad);
    InvariantIsSound(load);
    RunKeepsInvariant(load, onward);
    PrefixFixed(Start(prefix), toLoad);
    PrefixFixed(load, onward);
    BuiltWalks(load.db, rows, i, cum, dist, start, steps);
    SpeedInBand(base, d);
    PublishedIsKept(s, rows[i].vehicleId, WalkerAt(rows[i], cum, start, steps), NextSpeed(base, d), timestamp,
                    meanwhile);
  }
}
