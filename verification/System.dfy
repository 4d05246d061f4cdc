/** The running system: one subscriber whose transaction is open between its reads and its
    commit, while admin calls, wipes and seedings take effect in between. */
module System {
  import opened Schema
  import opened FixedPoint
  import opened Ingestion
  import opened FleetAdmin
  import opened AdminLaws
  import opened Seeding
  import opened SeedLaws
  import opened Tracking
  import opened Paging

  /** `prefix` is the configured topic prefix; `pending` the subscriber's open transaction. */
  datatype Sys = Sys(prefix: string, db: Db, pending: Option<PendingFix>)

  datatype Event =
    | Deliver(topic: string, payload: Payload)
    | Commit
    | Crash
    | Admin(call: Call)
    | Truncated
    | Seeded

  /** Messages are handled one at a time: while a transaction is open, the subscriber takes none, so
      a delivery tried then is not taken in this step. */
  ghost function Step(s: Sys, e: Event): Sys {
    match e
    case Deliver(topic, payload) =>
      if s.pending.Some? then s else s.(pending := Receive(s.db, s.prefix, topic, payload))
    case Commit =>
      if s.pending.None? then s else s.(db := CommitPhase(s.db, s.pending.value), pending := None)
    case Crash => s.(pending := None)
    case Admin(call) => s.(db := Apply(s.db, call))
    case Truncated => s.(db := Wipe(s.db))
    case Seeded => s.(db := Seed(s.db))
  }

  ghost function Run(s: Sys, events: seq<Event>): Sys {
    if events == [] then s else Step(Run(s, events[..|events| - 1]), events[|events| - 1])
  }

  function Start(prefix: string): Sys {
    Sys(prefix, EMPTY_DB, None)
  }

  // ----- The invariant -------------------------------------------------------------------------

  /** An open transaction concerns an id already issued, and as long as its vehicle is there the
      current row it has seen is still the current row. */
  predicate PendingHolds(db: Db, p: PendingFix) {
    && p.message.vehicleId < db.nextVehicle
    && (p.message.vehicleId in db.vehicles ==> SnapshotHolds(db, p))
  }

  ghost predicate Invariant(s: Sys) {
    Sound(s.db) && (s.pending.Some? ==> PendingHolds(s.db, s.pending.value))
  }

  /** A vehicle that is gone stays gone: its id is never issued again. */
  lemma VehicleNotRevived(db: Db, e: Event, v: int, after: Db)
    requires Sound(db) && v < db.nextVehicle && v !in db.vehicles
    requires e.Admin? || e.Truncated? || e.Seeded?
    requires after == Step(Sys("", db, None), e).db
    ensures v !in after.vehicles && v < after.nextVehicle
  {
    match e
    case Admin(call) => AdminDrawsFreshVehicles(db, call, v);
    case Seeded => SeedDrawsFreshVehicles(db, v);
    case Truncated =>
  }

  lemma AdminDrawsFreshVehicles(db: Db, call: Call, v: int)
    requires v < db.nextVehicle && v !in db.vehicles
    ensures v !in Apply(db, call).vehicles && v < Apply(db, call).nextVehicle
  {
  }

  lemma SeedDrawsFreshVehicles(db: Db, v: int)
    requires Sound(db) && v < db.nextVehicle
    ensures v in Seed(db).vehicles <==> v in db.vehicles
    ensures v < Seed(db).nextVehicle
  {
    DemoRoutesValid();
    RoutesSeeded(db, DEMO_ROUTES);
    var a := SeedRoutes(db, DEMO_ROUTES);
    VehicleIdsFresh(a, DEMO_VEHICLES, v);
    FleetSeeded(db);
    DriversSeeded(SeedFleet(db), DEMO_DRIVERS);
  }

  lemma {:induction false} VehicleIdsFresh(db: Db, specs: seq<Vehicle>, v: int)
    requires v < db.nextVehicle
    ensures v in SeedVehicles(db, specs).vehicles <==> v in db.vehicles
    ensures v < SeedVehicles(db, specs).nextVehicle
  {
    if specs != [] {
      VehicleIdsFresh(db, specs[..|specs| - 1], v);
    }
  }

  /** Outside ingestion the current rows change only with a wipe. */
  lemma CurrentUntouched(db: Db, e: Event)
    requires Sound(db) && (e.Admin? || e.Seeded?)
    ensures Step(Sys("", db, None), e).db.current == db.current
  {
    if e.Seeded? {
      SeedKeeps(db);
    }
  }

  lemma OtherStepsKeepPending(db: Db, e: Event, p: PendingFix)
    requires Sound(db) && PendingHolds(db, p) && (e.Admin? || e.Truncated? || e.Seeded?)
    ensures PendingHolds(Step(Sys("", db, None), e).db, p)
  {
    var v, after := p.message.vehicleId, Step(Sys("", db, None), e).db;
    if v !in db.vehicles {
      VehicleNotRevived(db, e, v, after);
    } else if !e.Truncated? {
      CurrentUntouched(db, e);
      if e.Seeded? {
        SeedDrawsFreshVehicles(db, v);
      }
    }
  }

  lemma StepKeepsInvariant(s: Sys, e: Event)
    requires Invariant(s)
    ensures Invariant(Step(s, e))
  {
    match e
    case Deliver(_, _) =>
    case Commit =>
      if s.pending.Some? {
        CommitKeepsSound(s.db, s.pending.value);
      }
    case Crash =>
    case Admin(call) =>
      AdminKeepsSound(s.db, call);
      if s.pending.Some? {
        OtherStepsKeepPending(s.db, e, s.pending.value);
      }
    case Truncated =>
      WipeKeepsSound(s.db);
      if s.pending.Some? {
        OtherStepsKeepPending(s.db, e, s.pending.value);
      }
    case Seeded =>
      SeedKeeps(s.db);
      if s.pending.Some? {
        OtherStepsKeepPending(s.db, e, s.pending.value);
      }
  }

  lemma {:induction false} RunKeepsInvariant(s: Sys, events: seq<Event>)
    requires Invariant(s)
    ensures Invariant(Run(s, events))
  {
    if events != [] {
      RunKeepsInvariant(s, events[..|events| - 1]);
      StepKeepsInvariant(Run(s, events[..|events| - 1]), events[|events| - 1]);
    }
  }

  lemma StartHolds(prefix: string)
    ensures Invariant(Start(prefix))
  {
    EmptyIsProper();
  }

  /** In every reachable state, whatever was interleaved: references resolve, names, codes and
      emails are unique, and a vehicle has a current row exactly when it has history, the row
      being the earliest inserted among its newest fixes. */
  lemma ReachableIsSound(prefix: string, events: seq<Event>)
    ensures Integrity(Run(Start(prefix), events).db)
    ensures IndexAgrees(Run(Start(prefix), events).db.points, Run(Start(prefix), events).db.current)
  {
    EmptyIsProper();
    RunKeepsInvariant(Start(prefix), events);
  }

  /** An ingestion is refused at commit exactly when its vehicle has vanished since the read, and
      then leaves every table alone. A vehicle deactivated in between is no reason to refuse. */
  lemma CommitRefusedExactly(s: Sys)
    requires Invariant(s) && s.pending.Some?
    ensures var m, after := s.pending.value.message, Step(s, Commit).db;
            && after.nextPoint == s.db.nextPoint + 1
            && (m.vehicleId !in s.db.vehicles ==> after.(nextPoint := s.db.nextPoint) == s.db)
            && (m.vehicleId in s.db.vehicles ==>
                  && after.(points := s.db.points, current := s.db.current, nextPoint := s.db.nextPoint) == s.db
                  && after.points == s.db.points + [GpsPoint(s.db.nextPoint, m.vehicleId, Quantised(m))])
  {
    CommitKeepsSound(s.db, s.pending.value);
  }

  /** A vehicle is deactivated between the read and the commit of its fix: the fix is stored. */
  lemma StoredThoughDeactivated(s: Sys, v: int, topic: string, payload: Payload)
    requires Invariant(s) && s.pending.None?
    requires var p := Receive(s.db, s.prefix, topic, payload); p.Some? && p.value.message.vehicleId == v
    ensures var m := Receive(s.db, s.prefix, topic, payload).value.message;
            var off := Admin(UpdateVehicle(v, Unset, Unset, Value(false)));
            var open := Step(Step(s, Deliver(topic, payload)), off);
            && v in open.db.vehicles && !open.db.vehicles[v].isActive
            && Step(open, Commit).db.points == s.db.points + [GpsPoint(s.db.nextPoint, v, Quantised(m))]
  {
    var off := Admin(UpdateVehicle(v, Unset, Unset, Value(false)));
    var read := Step(s, Deliver(topic, payload));
    StepKeepsInvariant(s, Deliver(topic, payload));
    StepKeepsInvariant(read, off);
    CommitRefusedExactly(Step(read, off));
  }

  predicate WithoutMessages(events: seq<Event>) {
    forall i | 0 <= i < |events| :: events[i].Admin? || events[i].Truncated? || events[i].Seeded?
  }

  lemma {:induction false} PendingIsApart(s: Sys, pending: Option<PendingFix>, events: seq<Event>)
    requires WithoutMessages(events)
    ensures Run(s.(pending := pending), events) == Run(s, events).(pending := pending)
  {
    if events != [] {
      PendingIsApart(s, pending, events[..|events| - 1]);
    }
  }

  /** Ingestion is all or nothing: a message whose transaction is lost before its commit leaves the system
      as if it had never been delivered, whatever admins did meanwhile. */
  lemma LostInCrash(s: Sys, topic: string, payload: Payload, events: seq<Event>)
    requires s.pending.None? && WithoutMessages(events)
    ensures Step(Run(Step(s, Deliver(topic, payload)), events), Crash) == Run(s, events)
  {
    var p := Receive(s.db, s.prefix, topic, payload);
    assert Step(s, Deliver(topic, payload)) == s.(pending := p);
    PendingIsApart(s, p, events);
    PendingIsApart(s, None, events);
    assert s.(pending := None) == s;
  }

  lemma {:induction false} PrefixFixed(s: Sys, events: seq<Event>)
    ensures Run(s, events).prefix == s.prefix
  {
    if events != [] {
      PrefixFixed(s, events[..|events| - 1]);
    }
  }

  // ----- The consuming loop --------------------------------------------------------------------

  /** The events of a subscriber that nothing interrupts. */
  function Undisturbed(ds: seq<Delivery>): seq<Event> {
    if ds == [] then []
    else Undisturbed(ds[..|ds| - 1]) + [Deliver(ds[|ds| - 1].topic, ds[|ds| - 1].payload), Commit]
  }

  /** The subscriber's loop is the run in which nothing comes between a read and its commit. */
  lemma {:induction false} LoopIsRun(s: Sys, ds: seq<Delivery>)
    requires s.pending.None?
    ensures Run(s, Undisturbed(ds)) == s.(db := ProcessAll(s.db, s.prefix, ds))
  {
    if ds != [] {
      var front, d := ds[..|ds| - 1], ds[|ds| - 1];
      LoopIsRun(s, front);
      RunAppends(s, Undisturbed(front), Deliver(d.topic, d.payload), Commit);
      MessageIsTwoSteps(s.(db := ProcessAll(s.db, s.prefix, front)), d);
    }
  }

  lemma RunAppends(s: Sys, events: seq<Event>, a: Event, b: Event)
    ensures Run(s, events + [a, b]) == Step(Step(Run(s, events), a), b)
  {
    hide Step;
    assert (events + [a, b])[..|events| + 1] == events + [a];
    assert (events + [a])[..|events|] == events;
  }

  lemma MessageIsTwoSteps(s: Sys, d: Delivery)
    requires s.pending.None?
    ensures Step(Step(s, Deliver(d.topic, d.payload)), Commit) == s.(db := ProcessOne(s.db, s.prefix, d))
  {
  }

  // ----- What is stored is within the contract -------------------------------------------------

  predicate FixInBounds(f: Fix) {
    -90_000_000 <= f.lat <= 90_000_000 && -180_000_000 <= f.lng <= 180_000_000 && 0 <= f.speed <= 30_000
  }

  predicate StoredInBounds(s: Sys) {
    && (forall i | 0 <= i < |s.db.points| :: FixInBounds(s.db.points[i].fix))
    && (s.pending.Some? ==> InContract(s.pending.value.message))
  }

  lemma QuantisedInBounds(m: GPSMessage)
    requires InContract(m)
    ensures FixInBounds(Quantised(m))
  {
    RoundsNearest(m.lat * 1000000.0, -90000000, 90000000);
    RoundsNearest(m.lng * 1000000.0, -180000000, 180000000);
    RoundsNearest(m.speed * 100.0, 0, 30000);
  }

  lemma StepStoresInBounds(s: Sys, e: Event)
    requires Invariant(s) && StoredInBounds(s)
    ensures StoredInBounds(Step(s, e))
  {
    match e
    case Commit =>
      if s.pending.Some? {
        QuantisedInBounds(s.pending.value.message);
      }
    case Seeded => SeedKeeps(s.db);
    case _ =>
  }

  /** Whatever real-valued payloads are published, every stored fix is within the bounds of the contract. */
  lemma {:induction false} RunStoresInBounds(s: Sys, events: seq<Event>)
    requires Invariant(s) && StoredInBounds(s)
    ensures StoredInBounds(Run(s, events))
  {
    if events != [] {
      var front := events[..|events| - 1];
      RunStoresInBounds(s, front);
      RunKeepsInvariant(s, front);
      StepStoresInBounds(Run(s, front), events[|events| - 1]);
    }
  }

  // ----- History and current rows only go forward ----------------------------------------------

  predicate NoWipe(events: seq<Event>) {
    forall i | 0 <= i < |events| :: !events[i].Truncated?
  }

  lemma StepAppends(s: Sys, e: Event)
    requires Invariant(s) && !e.Truncated?
    ensures s.db.points <= Step(s, e).db.points
  {
    if e.Seeded? {
      SeedKeeps(s.db);
    }
  }

  lemma {:induction false} HistoryAppendOnly(s: Sys, events: seq<Event>)
    requires Invariant(s) && NoWipe(events)
    ensures s.db.points <= Run(s, events).db.points
  {
    if events != [] {
      var front := events[..|events| - 1];
      HistoryAppendOnly(s, front);
      RunKeepsInvariant(s, front);
      StepAppends(Run(s, front), events[|events| - 1]);
    }
  }

  lemma NewestNotEarlier(a: Db, b: Db, v: int)
    requires IndexAgrees(a.points, a.current) && IndexAgrees(b.points, b.current)
    requires a.points <= b.points && HasHistory(a.points, v)
    ensures v in a.current && v in b.current && b.current[v].recordedAt >= a.current[v].recordedAt
  {
    var i :| Wins(a.points, v, i) && a.current[v] == a.points[i].fix;
    assert b.points[i] == a.points[i];
    assert HasHistory(b.points, v);
    var k :| Wins(b.points, v, k) && b.current[v] == b.points[k].fix;
  }

  /** A run without a wipe, from a state in which the vehicle has history. */
  ghost predicate RunsOn(s: Sys, events: seq<Event>, v: int) {
    Invariant(s) && NoWipe(events) && HasHistory(s.db.points, v)
  }

  /** Until a wipe, a vehicle with history is never deleted and its current time never goes back. */
  lemma CurrentNeverRegresses(s: Sys, events: seq<Event>, v: int)
    requires RunsOn(s, events, v)
    ensures var after := Run(s, events).db;
            && v in s.db.current && v in after.current && v in after.vehicles
            && after.current[v].recordedAt >= s.db.current[v].recordedAt
  {
    HistoryAppendOnly(s, events);
    RunKeepsInvariant(s, events);
    NewestNotEarlier(s.db, Run(s, events).db, v);
  }

  /** A driver shown offline stays so, over a run without a wipe, exactly until a fix of its vehicle is
      stored that was recorded in the sixty seconds before the driver looks. */
  lemma OfflineUntilHeard(s: Sys, events: seq<Event>, user: User, v: int, now: int, later: int)
    requires Invariant(s) && NoWipe(events) && user.vehicleId == Some(v) && now <= later
    requires v in s.db.vehicles && v in Run(s, events).db.vehicles
    requires GetCurrentLocation(s.db, user, now).value.status == Offline
    ensures var after := Run(s, events).db;
            && GetCurrentLocation(after, user, later).Ok?
            && (GetCurrentLocation(after, user, later).value.status == Offline <==>
                  forall i | |s.db.points| <= i < |after.points| && after.points[i].vehicleId == v ::
                    after.points[i].fix.recordedAt < later - 60_000_000)
  {
    var after := Run(s, events).db;
    HistoryAppendOnly(s, events);
    RunKeepsInvariant(s, events);
    StatusIsOfHistory(s.db, user, v, now);
    StatusIsOfHistory(after, user, v, later);
    HeardLater(s.db.points, after.points, v, now, later);
  }

  lemma HeardLater(before: seq<GpsPoint>, after: seq<GpsPoint>, v: int, now: int, later: int)
    requires before <= after && now <= later && !HeardFrom(before, v, now)
    ensures !HeardFrom(after, v, later) <==>
              forall i | |before| <= i < |after| && after[i].vehicleId == v ::
                after[i].fix.recordedAt < later - 60_000_000
  {
    assert forall i | 0 <= i < |before| :: after[i] == before[i];
  }

  /** Over a run without a wipe, the first `k` points of a window stay what they were exactly when
      nothing stored in the window meanwhile is earlier than the last of them. */
  lemma ServedPrefixKeptExactly(s: Sys, events: seq<Event>, v: int, since: int, to: int, k: nat)
    requires Invariant(s) && NoWipe(events) && 1 <= k <= |Rows(s.db.points, v, since, to)|
    ensures var before, after := s.db.points, Run(s, events).db.points;
            && k <= |Rows(after, v, since, to)|
            && (Rows(after, v, since, to)[..k] == Rows(before, v, since, to)[..k] <==>
                  NoneBefore(before, after, v, since, to, TimeAt(Rows(before, v, since, to), k - 1)))
  {
    HistoryAppendOnly(s, events);
    RunKeepsInvariant(s, events);
    PrefixKeptExactly(s.db.points, Run(s, events).db.points, v, since, to, k);
  }

  /** The states in which a client asks for its pages: the first, and one after each stretch of events. */
  ghost function Stops(s: Sys, gaps: seq<seq<Event>>): (stops: seq<Sys>)
    ensures |stops| == |gaps| + 1
  {
    if gaps == [] then [s]
    else
      var before := Stops(s, gaps[..|gaps| - 1]);
      before + [Run(before[|before| - 1], gaps[|gaps| - 1])]
  }

  ghost function VisitsAt(stops: seq<Sys>, clock: seq<int>): seq<Visit>
    requires |clock| == |stops|
  {
    seq(|stops|, i requires 0 <= i < |stops| => Visit(stops[i].db, clock[i]))
  }

  lemma {:induction false} StopsSound(s: Sys, gaps: seq<seq<Event>>)
    requires Invariant(s)
    ensures forall i | 0 <= i <= |gaps| :: Invariant(Stops(s, gaps)[i])
  {
    if gaps != [] {
      hide Run, Invariant;
      var n := |gaps| - 1;
      StopsSound(s, gaps[..n]);
      RunKeepsInvariant(Stops(s, gaps[..n])[n], gaps[n]);
    }
  }

  lemma StopFollows(s: Sys, gaps: seq<seq<Event>>, i: nat)
    requires i < |gaps|
    ensures Stops(s, gaps)[i + 1] == Run(Stops(s, gaps)[i], gaps[i])
  {
    if i + 1 < |gaps| {
      StopFollows(s, gaps[..|gaps| - 1], i);
    }
  }

  lemma StopsInOrder(s: Sys, gaps: seq<seq<Event>>, clock: seq<int>)
    requires Invariant(s) && |clock| == |gaps| + 1 && forall i | 0 <= i < |gaps| :: NoWipe(gaps[i])
    ensures VisitsInOrder(VisitsAt(Stops(s, gaps), clock))
  {
    hide Run, NoWipe, Stops;
    var stops := Stops(s, gaps);
    StopsSound(s, gaps);
    forall i: nat | i < |gaps| ensures Appends(stops[i].db.points, stops[i + 1].db.points) {
      StopFollows(s, gaps, i);
      HistoryAppendOnly(stops[i], gaps[i]);
      assert Invariant(stops[i + 1]);
    }
    assert Invariant(stops[0]);
  }

  /** A client asks for page after page while the system runs without a wipe. */
  ghost predicate WalksInRun(s: Sys, gaps: seq<seq<Event>>, clock: seq<int>, u: int, v: int, params: HistoryParams) {
    && Invariant(s) && (forall i | 0 <= i < |gaps| :: NoWipe(gaps[i])) && |clock| == |gaps| + 1
    && params.Valid() && params.dateFrom.Some? && params.dateTo.Some?
    && AskFor(VisitsAt(Stops(s, gaps), clock), u, v)
  }

  /** The pages of a client, asked for at any moments of a run, are together the first points of the
      last result exactly when every point stored in its window meanwhile found the page before it full
      and was not earlier than the last point of it. */
  lemma PagingExactlyInRun(s: Sys, gaps: seq<seq<Event>>, clock: seq<int>, u: int, v: int, params: HistoryParams)
    requires WalksInRun(s, gaps, clock, u, v, params)
    ensures var visits := VisitsAt(Stops(s, gaps), clock);
            ServesFirst(visits, u, v, params) <==> WalkUndisturbed(visits, u, v, params)
  {
    hide Invariant, Run, Stops, WalkUndisturbed, VisitsInOrder, ServesFirst;
    StopsInOrder(s, gaps, clock);
    PagingExactly(VisitsAt(Stops(s, gaps), clock), u, v, params);
  }

  // ----- One-to-one over runs ------------------------------------------------------------------

  /** Every seeding in the run starts where no user holds a missing demo driver's pair. */
  ghost predicate SeedsClear(s: Sys, events: seq<Event>) {
    forall i | 0 <= i < |events| && events[i].Seeded? :: SeedClear(Run(s, events[..i]).db)
  }

  lemma {:induction false} RunKeepsOneToOne(s: Sys, events: seq<Event>)
    requires Invariant(s) && OneToOne(s.db.users) && SeedsClear(s, events)
    ensures OneToOne(Run(s, events).db.users)
  {
    if events != [] {
      var n := |events| - 1;
      var front := events[..n];
      hide Step, Invariant, OneToOne, SeedsClear, SeedClear;
      SeedsClearBefore(s, events);
      RunKeepsOneToOne(s, front);
      RunKeepsInvariant(s, front);
      StepKeepsOneToOne(Run(s, front), events[n]);
    }
  }

  lemma SeedsClearBefore(s: Sys, events: seq<Event>)
    requires SeedsClear(s, events) && events != []
    ensures var n := |events| - 1;
            SeedsClear(s, events[..n]) && (events[n].Seeded? ==> SeedClear(Run(s, events[..n]).db))
  {
    hide Run, SeedClear;
    var n := |events| - 1;
    var front := events[..n];
    forall i | 0 <= i < n && front[i].Seeded? ensures SeedClear(Run(s, front[..i]).db) {
      assert front[i] == events[i] && front[..i] == events[..i];
    }
  }

  lemma StepKeepsOneToOne(s: Sys, e: Event)
    requires Invariant(s) && OneToOne(s.db.users) && (e.Seeded? ==> SeedClear(s.db))
    ensures OneToOne(Step(s, e).db.users)
  {
    match e
    case Admin(call) => AdminKeepsOneToOne(s.db, call);
    case Seeded => SeedOneToOneExactly(s.db);
    case _ =>
  }

  // ----- Isolation over runs -------------------------------------------------------------------

  /** The step concerns the user, its route or its vehicle. */
  predicate Touches(s: Sys, e: Event, u: int)
    requires u in s.db.users
  {
    var user := s.db.users[u];
    match e
    case Deliver(_, _) => false
    case Commit => s.pending.Some? && HoldsVehicle(user, s.pending.value.message.vehicleId)
    case Crash => false
    case Truncated => true
    case Seeded => false
    case Admin(UpdateUser(w, _, _)) => w == u
    case Admin(DeleteUser(w)) => w == u
    case Admin(SetAssignment(w, _, _)) => w == u
    case Admin(UpdateRoute(r, _, _)) => HoldsRoute(user, r)
    case Admin(DeleteRoute(r)) => false
    case Admin(UpdateVehicle(v, _, _, _)) => HoldsVehicle(user, v)
    case Admin(DeleteVehicle(v)) => false
    case Admin(_) => false
  }

  lemma OthersPointsKept(points: seq<GpsPoint>, p: GpsPoint, v: int)
    requires p.vehicleId != v
    ensures PointsOf(points + [p], v) == PointsOf(points, v)
  {
    var all := points + [p];
    assert all[..|all| - 1] == points;
    assert PointsOf(points, v) + [] == PointsOf(points, v);
  }

  lemma UntouchedByCommit(db: Db, p: PendingFix, u: int)
    requires u in db.users && !HoldsVehicle(db.users[u], p.message.vehicleId)
    ensures SameView(db, CommitPhase(db, p), u)
  {
    if db.users[u].vehicleId.Some? {
      OthersPointsKept(db.points, GpsPoint(db.nextPoint, p.message.vehicleId, Quantised(p.message)),
                       db.users[u].vehicleId.value);
    }
  }

  lemma UntouchedByAdmin(s: Sys, call: Call, u: int)
    requires Sound(s.db) && u in s.db.users && !Touches(s, Admin(call), u)
    ensures SameView(s.db, Apply(s.db, call), u)
  {
    assert s.db.nextUser !in s.db.users && s.db.nextRoute !in s.db.routes && s.db.nextVehicle !in s.db.vehicles;
    if Reply(s.db, call).Done? {
      match call
      case DeleteRoute(r) => assert !HoldsRoute(s.db.users[u], r);
      case DeleteVehicle(v) => assert !HoldsVehicle(s.db.users[u], v);
      case _ =>
    }
  }

  lemma UntouchedStep(s: Sys, e: Event, u: int)
    requires Invariant(s) && u in s.db.users && !Touches(s, e, u)
    ensures SameView(s.db, Step(s, e).db, u)
  {
    match e
    case Commit =>
      if s.pending.Some? {
        UntouchedByCommit(s.db, s.pending.value, u);
      }
    case Admin(call) => UntouchedByAdmin(s, call, u);
    case Seeded => SeedKeeps(s.db);
    case _ =>
  }

  /** No step of the run concerns the user. */
  ghost predicate LeavesAlone(s: Sys, events: seq<Event>, u: int) {
    forall i | 0 <= i < |events| ::
      u in Run(s, events[..i]).db.users && !Touches(Run(s, events[..i]), events[i], u)
  }

  lemma {:induction false} RunLeavesView(s: Sys, events: seq<Event>, u: int)
    requires Invariant(s) && u in s.db.users && LeavesAlone(s, events, u)
    ensures SameView(s.db, Run(s, events).db, u)
  {
    if events != [] {
      var n := |events| - 1;
      var front := events[..n];
      forall i | 0 <= i < n
        ensures u in Run(s, front[..i]).db.users && !Touches(Run(s, front[..i]), front[i], u)
      {
        assert front[i] == events[i] && front[..i] == events[..i];
      }
      RunLeavesView(s, front, u);
      RunKeepsInvariant(s, front);
      UntouchedStep(Run(s, front), events[n], u);
    }
  }

  /** Isolation: whatever other vehicles report and admins do to other users, routes and vehicles,
      all four answers of a user stay what they were at the same time. */
  lemma AnswersUndisturbed(s: Sys, events: seq<Event>, u: int, params: HistoryParams, now: int)
    requires Invariant(s) && u in s.db.users && LeavesAlone(s, events, u) && params.Valid()
    ensures u in Run(s, events).db.users
    ensures MeAnswers(Run(s, events).db, u, params, now) == MeAnswers(s.db, u, params, now)
  {
    RunLeavesView(s, events, u);
    SameViewSameAnswers(s.db, Run(s, events).db, u, params, now);
  }
}
