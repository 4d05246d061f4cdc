/** When seeding a database in use keeps the assignments one-to-one. */
module SeedLaws {
  import opened Schema
  import opened FleetAdmin
  import opened AdminLaws
  import opened Seeding

  predicate DistinctDrivers(drivers: seq<DemoDriver>) {
    forall i, j | 0 <= i < j < |drivers| ::
      && drivers[i].email != drivers[j].email
      && drivers[i].route != drivers[j].route
      && drivers[i].code != drivers[j].code
  }

  predicate NamesPresent(db: Db, drivers: seq<DemoDriver>) {
    forall i | 0 <= i < |drivers| ::
      NameTaken(db.routes, drivers[i].route) && CodeTaken(db.vehicles, drivers[i].code)
  }

  /** Nobody holds the pair this driver would get. */
  ghost predicate PairFree(db: Db, d: DemoDriver) {
    && (var r := RouteNamed(db.routes, d.route); r.Some? ==> !RouteHeld(db.users, r.value))
    && (var v := VehicleCoded(db.vehicles, d.code); v.Some? ==> !VehicleHeld(db.users, v.value))
  }

  ghost predicate DriversClear(db: Db, drivers: seq<DemoDriver>) {
    forall i | 0 <= i < |drivers| && !EmailTaken(db.users, drivers[i].email) :: PairFree(db, drivers[i])
  }

  /** Every user after seeding was there before or is one of the drivers. */
  ghost predicate Provenance(db: Db, drivers: seq<DemoDriver>, users: map<int, User>) {
    forall u | u in users ::
      || (u in db.users && users[u] == db.users[u])
      || exists j :: 0 <= j < |drivers| && users[u] == DriverRow(db, drivers[j])
  }

  lemma {:induction false} DriversProvenance(db: Db, drivers: seq<DemoDriver>)
    requires Sound(db)
    ensures Provenance(db, drivers, SeedDrivers(db, drivers).users)
  {
    if drivers != [] {
      var n := |drivers| - 1;
      var before, after := SeedDrivers(db, drivers[..n]), SeedDrivers(db, drivers);
      DriversProvenance(db, drivers[..n]);
      DriversSeeded(db, drivers[..n]);
      assert DriverRow(before, drivers[n]) == DriverRow(db, drivers[n]);
      forall u | u in after.users
        ensures (u in db.users && after.users[u] == db.users[u])
                || exists j :: 0 <= j < |drivers| && after.users[u] == DriverRow(db, drivers[j])
      {
        if u in before.users && after.users[u] == before.users[u]
           && !(u in db.users && before.users[u] == db.users[u]) {
          var j :| 0 <= j < n && before.users[u] == DriverRow(db, drivers[..n][j]);
          assert drivers[..n][j] == drivers[j];
        }
      }
    }
  }

  /** Drivers already seeded take neither the email nor the pair of a different driver. */
  lemma OthersKeepOff(db: Db, drivers: seq<DemoDriver>, d: DemoDriver)
    requires Sound(db) && DistinctDrivers(drivers + [d]) && NamesPresent(db, drivers + [d])
    ensures var before := SeedDrivers(db, drivers);
            && (EmailTaken(before.users, d.email) <==> EmailTaken(db.users, d.email))
            && (PairFree(before, d) <==> PairFree(db, d))
  {
    hide Sound, DistinctDrivers, NamesPresent, SeedDrivers, DriverRow;
    var before := SeedDrivers(db, drivers);
    DriversSeeded(db, drivers);
    DriversProvenance(db, drivers);
    forall j | 0 <= j < |drivers| ensures KeepsOff(db, DriverRow(db, drivers[j]), d) {
      OtherKeepsOff(db, drivers, j, d);
    }
    assert forall u | u in db.users :: u in before.users && before.users[u] == db.users[u];
  }

  /** The row has neither the email nor a half of the pair of driver `d`. */
  ghost predicate KeepsOff(db: Db, user: User, d: DemoDriver) {
    user.email != d.email
    && user.routeId != RouteNamed(db.routes, d.route) && user.vehicleId != VehicleCoded(db.vehicles, d.code)
  }

  lemma OtherKeepsOff(db: Db, drivers: seq<DemoDriver>, j: nat, d: DemoDriver)
    requires DistinctDrivers(drivers + [d]) && NamesPresent(db, drivers + [d]) && j < |drivers|
    ensures KeepsOff(db, DriverRow(db, drivers[j]), d)
  {
    var all := drivers + [d];
    assert all[j] == drivers[j] && all[|drivers|] == d;
  }

  lemma FewerStayOneToOne(users: map<int, User>, more: map<int, User>)
    requires Extends(users, more) && OneToOne(more)
    ensures OneToOne(users)
  {
  }

  /** Adding one row under a new id. */
  lemma OneMoreDriver(db: Db, d: DemoDriver)
    requires Sound(db) && OneToOne(db.users) && NamesPresent(db, [d]) && !EmailTaken(db.users, d.email)
    ensures OneToOne(SeedUser(db, DriverRow(db, d)).users) <==> PairFree(db, d)
  {
    assert [d][0] == d;
    assert db.nextUser !in db.users;
    OneToOneWith(db.users, db.nextUser, DriverRow(db, d));
  }

  lemma ClearSplits(db: Db, front: seq<DemoDriver>, d: DemoDriver)
    ensures DriversClear(db, front + [d]) <==>
              DriversClear(db, front) && (!EmailTaken(db.users, d.email) ==> PairFree(db, d))
  {
    var all := front + [d];
    assert all[|front|] == d;
    assert forall i | 0 <= i < |front| :: all[i] == front[i];
  }

  lemma DriversSplit(db: Db, front: seq<DemoDriver>, d: DemoDriver)
    requires DistinctDrivers(front + [d]) && NamesPresent(db, front + [d])
    ensures DistinctDrivers(front) && NamesPresent(db, front) && NamesPresent(db, [d])
  {
    var all := front + [d];
    assert all[|front|] == d;
    assert forall i | 0 <= i < |front| :: all[i] == front[i];
  }

  lemma {:induction false} DriversOneToOne(db: Db, drivers: seq<DemoDriver>)
    requires Sound(db) && OneToOne(db.users) && DistinctDrivers(drivers) && NamesPresent(db, drivers)
    ensures OneToOne(SeedDrivers(db, drivers).users) <==> DriversClear(db, drivers)
  {
    if drivers != [] {
      var front, d := drivers[..|drivers| - 1], drivers[|drivers| - 1];
      assert drivers == front + [d];
      DriversSplit(db, front, d);
      DriversOneToOne(db, front);
      ClearSplits(db, front, d);
      LastDriver(db, front, d);
    }
  }

  lemma LastDriver(db: Db, front: seq<DemoDriver>, d: DemoDriver)
    requires Sound(db) && DistinctDrivers(front + [d]) && NamesPresent(db, front + [d])
    ensures var before := SeedDrivers(db, front);
            OneToOne(SeedUser(before, DriverRow(before, d)).users) <==>
              OneToOne(before.users) && (!EmailTaken(db.users, d.email) ==> PairFree(db, d))
  {
    var before := SeedDrivers(db, front);
    DriversSplit(db, front, d);
    DriversSeeded(db, front);
    OthersKeepOff(db, front, d);
    if !EmailTaken(before.users, d.email) {
      if OneToOne(before.users) {
        assert NamesPresent(before, [d]);
        OneMoreDriver(before, d);
      } else {
        UserStep(before, DriverRow(before, d));
        if OneToOne(SeedUser(before, DriverRow(before, d)).users) {
          FewerStayOneToOne(before.users, SeedUser(before, DriverRow(before, d)).users);
        }
      }
    }
  }

  // ----- The condition, on the database before seeding -----------------------------------------

  predicate NamedRouteHeld(db: Db, name: string) {
    exists u | u in db.users ::
      db.users[u].routeId.Some? && db.users[u].routeId.value in db.routes
      && db.routes[db.users[u].routeId.value].name == name
  }

  predicate CodedVehicleHeld(db: Db, code: string) {
    exists u | u in db.users ::
      db.users[u].vehicleId.Some? && db.users[u].vehicleId.value in db.vehicles
      && db.vehicles[db.users[u].vehicleId.value].code == code
  }

  /** No user holds the route or the vehicle of a demo driver that is missing. */
  predicate SeedClear(db: Db) {
    forall i | 0 <= i < |DEMO_DRIVERS| && !EmailTaken(db.users, DEMO_DRIVERS[i].email) ::
      !NamedRouteHeld(db, DEMO_DRIVERS[i].route) && !CodedVehicleHeld(db, DEMO_DRIVERS[i].code)
  }

  lemma SamePairs(db: Db, fleet: Db, d: DemoDriver)
    requires Sound(db) && Sound(fleet) && Grows(db, fleet) && NamesPresent(fleet, [d])
    requires fleet.users == SeedUser(db, User(ADMIN_EMAIL, true, None, None)).users
    ensures PairFree(fleet, d) <==> !NamedRouteHeld(db, d.route) && !CodedVehicleHeld(db, d.code)
  {
    assert [d][0] == d;
    var r, v := RouteNamed(fleet.routes, d.route).value, VehicleCoded(fleet.vehicles, d.code).value;
    assert fleet.routes[r].name == d.route && fleet.vehicles[v].code == d.code;
    NamedHeldSame(db, fleet, d.route, r);
    CodedHeldSame(db, fleet, d.code, v);
  }

  lemma NamedHeldSame(db: Db, fleet: Db, name: string, r: int)
    requires Sound(db) && NamesUnique(fleet.routes) && Extends(db.routes, fleet.routes)
    requires fleet.users == SeedUser(db, User(ADMIN_EMAIL, true, None, None)).users
    requires r in fleet.routes && fleet.routes[r].name == name && KeysDrawn(db.users, db.nextUser)
    ensures RouteHeld(fleet.users, r) <==> NamedRouteHeld(db, name)
  {
    if RouteHeld(fleet.users, r) {
      var u :| u in fleet.users && HoldsRoute(fleet.users[u], r);
      assert u in db.users && db.users[u].routeId == Some(r) && r in db.routes;
    }
    if NamedRouteHeld(db, name) {
      var u :| u in db.users && db.users[u].routeId.Some? && db.users[u].routeId.value in db.routes
        && db.routes[db.users[u].routeId.value].name == name;
      var q := db.users[u].routeId.value;
      assert fleet.routes[q].name == name;
      assert u in fleet.users && HoldsRoute(fleet.users[u], q);
    }
  }

  lemma CodedHeldSame(db: Db, fleet: Db, code: string, v: int)
    requires Sound(db) && CodesUnique(fleet.vehicles) && Extends(db.vehicles, fleet.vehicles)
    requires fleet.users == SeedUser(db, User(ADMIN_EMAIL, true, None, None)).users
    requires v in fleet.vehicles && fleet.vehicles[v].code == code && KeysDrawn(db.users, db.nextUser)
    ensures VehicleHeld(fleet.users, v) <==> CodedVehicleHeld(db, code)
  {
    if VehicleHeld(fleet.users, v) {
      var u :| u in fleet.users && HoldsVehicle(fleet.users[u], v);
      assert u in db.users && db.users[u].vehicleId == Some(v) && v in db.vehicles;
    }
    if CodedVehicleHeld(db, code) {
      var u :| u in db.users && db.users[u].vehicleId.Some? && db.users[u].vehicleId.value in db.vehicles
        && db.vehicles[db.users[u].vehicleId.value].code == code;
      var w := db.users[u].vehicleId.value;
      assert fleet.vehicles[w].code == code;
      assert u in fleet.users && HoldsVehicle(fleet.users[u], w);
    }
  }

  lemma DemoDriversDistinct()
    ensures DistinctDrivers(DEMO_DRIVERS)
    ensures forall i | 0 <= i < |DEMO_DRIVERS| :: DEMO_DRIVERS[i].email != ADMIN_EMAIL
  {
  }

  lemma DemoNamesPresent(fleet: Db)
    requires forall i | 0 <= i < |DEMO_ROUTES| :: NameTaken(fleet.routes, DEMO_ROUTES[i].name)
    requires forall i | 0 <= i < |DEMO_VEHICLES| :: CodeTaken(fleet.vehicles, DEMO_VEHICLES[i].code)
    ensures NamesPresent(fleet, DEMO_DRIVERS)
  {
    assert forall i | 0 <= i < |DEMO_DRIVERS| ::
        DEMO_DRIVERS[i].route == DEMO_ROUTES[i].name && DEMO_DRIVERS[i].code == DEMO_VEHICLES[i].code;
  }

  lemma AdminSeparate(db: Db, users: map<int, User>, email: string)
    requires Sound(db) && users == SeedUser(db, User(ADMIN_EMAIL, true, None, None)).users && email != ADMIN_EMAIL
    ensures EmailTaken(users, email) <==> EmailTaken(db.users, email)
  {
    assert db.nextUser !in db.users;
    assert forall u | u in db.users :: u in users && users[u] == db.users[u];
  }

  lemma AdminKeepsRelation(db: Db)
    requires Sound(db) && OneToOne(db.users)
    ensures OneToOne(SeedUser(db, User(ADMIN_EMAIL, true, None, None)).users)
  {
    if !EmailTaken(db.users, ADMIN_EMAIL) {
      OneToOneWith(db.users, db.nextUser, User(ADMIN_EMAIL, true, None, None));
    }
  }

  /** The condition on the seeded fleet is the one on the database before. */
  lemma ClearBefore(db: Db, fleet: Db)
    requires Sound(db) && Sound(fleet) && Grows(db, fleet) && NamesPresent(fleet, DEMO_DRIVERS)
    requires fleet.users == SeedUser(db, User(ADMIN_EMAIL, true, None, None)).users
    ensures DriversClear(fleet, DEMO_DRIVERS) <==> SeedClear(db)
  {
    DemoDriversDistinct();
    forall i | 0 <= i < |DEMO_DRIVERS|
      ensures EmailTaken(fleet.users, DEMO_DRIVERS[i].email) <==> EmailTaken(db.users, DEMO_DRIVERS[i].email)
      ensures PairFree(fleet, DEMO_DRIVERS[i]) <==>
              !NamedRouteHeld(db, DEMO_DRIVERS[i].route) && !CodedVehicleHeld(db, DEMO_DRIVERS[i].code)
    {
      AdminSeparate(db, fleet.users, DEMO_DRIVERS[i].email);
      assert NamesPresent(fleet, [DEMO_DRIVERS[i]]);
      SamePairs(db, fleet, DEMO_DRIVERS[i]);
    }
  }

  /** The inserts do no exclusivity check, so seeding a database in use keeps the assignments
      one-to-one exactly when no user holds the route or vehicle of a missing demo driver. */
  lemma SeedOneToOneExactly(db: Db)
    requires Sound(db) && OneToOne(db.users)
    ensures OneToOne(Seed(db).users) <==> SeedClear(db)
  {
    var fleet := SeedFleet(db);
    FleetSeeded(db);
    DemoDriversDistinct();
    DemoNamesPresent(fleet);
    AdminKeepsRelation(db);
    DriversOneToOne(fleet, DEMO_DRIVERS);
    ClearBefore(db, fleet);
  }

  /** A fresh seed is always sound and one-to-one. */
  lemma FreshSeedOneToOne(db: Db)
    requires Sound(db)
    ensures Sound(Seed(Wipe(db))) && OneToOne(Seed(Wipe(db)).users)
  {
    WipeKeepsSound(db);
    SeedKeeps(Wipe(db));
    assert OneToOne(Wipe(db).users) && SeedClear(Wipe(db));
    SeedOneToOneExactly(Wipe(db));
  }

  // ----- The fresh dataset ---------------------------------------------------------------------

  predicate DistinctNames(specs: seq<Route>) {
    forall i, j | 0 <= i < j < |specs| :: specs[i].name != specs[j].name
  }

  predicate DistinctCodes(specs: seq<Vehicle>) {
    forall i, j | 0 <= i < j < |specs| :: specs[i].code != specs[j].code
  }

  lemma {:induction false} AllRoutesNew(db: Db, specs: seq<Route>)
    requires db.routes == map[] && KeysDrawn(db.routes, db.nextRoute) && DistinctNames(specs)
    ensures var after := SeedRoutes(db, specs);
            && |after.routes| == |specs| && KeysDrawn(after.routes, after.nextRoute)
            && forall r | r in after.routes :: exists i :: 0 <= i < |specs| && after.routes[r].name == specs[i].name
  {
    if specs != [] {
      var n := |specs| - 1;
      AllRoutesNew(db, specs[..n]);
      var before, after := SeedRoutes(db, specs[..n]), SeedRoutes(db, specs);
      forall r | r in before.routes ensures before.routes[r].name != specs[n].name {
        var i :| 0 <= i < n && before.routes[r].name == specs[..n][i].name;
        assert specs[..n][i] == specs[i];
      }
      forall r | r in after.routes ensures exists i :: 0 <= i < |specs| && after.routes[r].name == specs[i].name {
        if r in before.routes {
          var i :| 0 <= i < n && before.routes[r].name == specs[..n][i].name;
          assert specs[..n][i] == specs[i];
        }
      }
    }
  }

  lemma {:induction false} AllVehiclesNew(db: Db, specs: seq<Vehicle>)
    requires db.vehicles == map[] && KeysDrawn(db.vehicles, db.nextVehicle) && DistinctCodes(specs)
    ensures var after := SeedVehicles(db, specs);
            && |after.vehicles| == |specs| && KeysDrawn(after.vehicles, after.nextVehicle)
            && forall v | v in after.vehicles :: exists i :: 0 <= i < |specs| && after.vehicles[v].code == specs[i].code
  {
    if specs != [] {
      var n := |specs| - 1;
      AllVehiclesNew(db, specs[..n]);
      var before, after := SeedVehicles(db, specs[..n]), SeedVehicles(db, specs);
      forall v | v in before.vehicles ensures before.vehicles[v].code != specs[n].code {
        var i :| 0 <= i < n && before.vehicles[v].code == specs[..n][i].code;
        assert specs[..n][i] == specs[i];
      }
      forall v | v in after.vehicles ensures exists i :: 0 <= i < |specs| && after.vehicles[v].code == specs[i].code {
        if v in before.vehicles {
          var i :| 0 <= i < n && before.vehicles[v].code == specs[..n][i].code;
          assert specs[..n][i] == specs[i];
        }
      }
    }
  }

  lemma {:induction false} AllDriversNew(db: Db, drivers: seq<DemoDriver>)
    requires Sound(db) && DistinctDrivers(drivers) && NamesPresent(db, drivers)
    requires forall i | 0 <= i < |drivers| :: !EmailTaken(db.users, drivers[i].email)
    ensures |SeedDrivers(db, drivers).users| == |db.users| + |drivers|
  {
    if drivers != [] {
      var front, d := drivers[..|drivers| - 1], drivers[|drivers| - 1];
      assert drivers == front + [d];
      DriversSplit(db, front, d);
      AllDriversNew(db, front);
      DriversSeeded(db, front);
      OthersKeepOff(db, front, d);
      var before := SeedDrivers(db, front);
      assert before.nextUser !in before.users;
    }
  }

  /** The row of a driver that was missing is found by its email, and is the demo pair. */
  lemma DriverIsSeeded(db: Db, drivers: seq<DemoDriver>, i: nat) returns (u: int)
    requires Sound(db) && DistinctDrivers(drivers) && i < |drivers|
    requires !EmailTaken(db.users, drivers[i].email)
    ensures u in SeedDrivers(db, drivers).users && SeedDrivers(db, drivers).users[u] == DriverRow(db, drivers[i])
  {
    var after := SeedDrivers(db, drivers);
    DriversSeeded(db, drivers);
    DriversProvenance(db, drivers);
    assert EmailTaken(after.users, drivers[i].email);
    u :| u in after.users && after.users[u].email == drivers[i].email;
    assert forall w | w in db.users :: db.users[w].email != drivers[i].email;
    var j :| 0 <= j < |drivers| && after.users[u] == DriverRow(db, drivers[j]);
    assert j == i;
  }

  /** `--fresh` yields the demo dataset: four routes, four vehicles and five users, ... */
  lemma FreshSeedCounts(db: Db)
    requires Sound(db)
    ensures var after := Seed(Wipe(db));
            |after.routes| == 4 && |after.vehicles| == 4 && |after.users| == 5
  {
    var start := Wipe(db);
    var fleet := SeedFleet(start);
    FreshFleet(db);
    AllDriversNew(fleet, DEMO_DRIVERS);
    DriversSeeded(fleet, DEMO_DRIVERS);
    DemoSpecsDistinct();
  }

  /** ... each demo driver on its own route and vehicle. */
  lemma FreshSeedPairs(db: Db, i: nat) returns (u: int)
    requires Sound(db) && i < |DEMO_DRIVERS|
    ensures var after := Seed(Wipe(db));
            && u in after.users && after.users[u].email == DEMO_DRIVERS[i].email
            && PairNamed(after, after.users[u], DEMO_DRIVERS[i].route, DEMO_DRIVERS[i].code)
  {
    var fleet := SeedFleet(Wipe(db));
    FreshFleet(db);
    DriversSeeded(fleet, DEMO_DRIVERS);
    u := DriverIsSeeded(fleet, DEMO_DRIVERS, i);
    assert NameTaken(fleet.routes, DEMO_DRIVERS[i].route) && CodeTaken(fleet.vehicles, DEMO_DRIVERS[i].code);
  }

  lemma FreshFleet(db: Db)
    requires Sound(db)
    ensures var fleet := SeedFleet(Wipe(db));
            && Sound(fleet) && DistinctDrivers(DEMO_DRIVERS) && NamesPresent(fleet, DEMO_DRIVERS)
            && |fleet.routes| == |DEMO_ROUTES| && |fleet.vehicles| == |DEMO_VEHICLES| && |fleet.users| == 1
            && forall i | 0 <= i < |DEMO_DRIVERS| :: !EmailTaken(fleet.users, DEMO_DRIVERS[i].email)
  {
    var start := Wipe(db);
    WipeKeepsSound(db);
    FleetSeeded(start);
    DemoDriversDistinct();
    DemoNamesPresent(SeedFleet(start));
    FleetCounts(start);
    forall i | 0 <= i < |DEMO_DRIVERS| ensures !EmailTaken(SeedFleet(start).users, DEMO_DRIVERS[i].email) {
      AdminSeparate(start, SeedFleet(start).users, DEMO_DRIVERS[i].email);
    }
  }

  predicate PairNamed(db: Db, user: User, route: string, code: string) {
    && user.routeId.Some? && user.routeId.value in db.routes && db.routes[user.routeId.value].name == route
    && user.vehicleId.Some? && user.vehicleId.value in db.vehicles && db.vehicles[user.vehicleId.value].code == code
  }

  lemma DemoSpecsDistinct()
    ensures DistinctNames(DEMO_ROUTES) && DistinctCodes(DEMO_VEHICLES)
    ensures |DEMO_ROUTES| == |DEMO_VEHICLES| == |DEMO_DRIVERS| == 4
  {
  }

  lemma FleetCounts(start: Db)
    requires Sound(start) && start.routes == map[] && start.vehicles == map[] && start.users == map[]
    ensures var fleet := SeedFleet(start);
            |fleet.routes| == |DEMO_ROUTES| && |fleet.vehicles| == |DEMO_VEHICLES| && |fleet.users| == 1
  {
    DemoSpecsDistinct();
    DemoRoutesValid();
    AllRoutesNew(start, DEMO_ROUTES);
    var a := SeedRoutes(start, DEMO_ROUTES);
    RoutesSeeded(start, DEMO_ROUTES);
    AllVehiclesNew(a, DEMO_VEHICLES);
    var b := SeedVehicles(a, DEMO_VEHICLES);
    VehiclesSeeded(a, DEMO_VEHICLES);
    assert !EmailTaken(b.users, ADMIN_EMAIL);
  }

  // ----- What seeding adds ---------------------------------------------------------------------

  /** Every route was there before, or is one of the specs that were missing, stored as specified. */
  predicate RoutesFrom(before: map<int, Route>, specs: seq<Route>, after: map<int, Route>) {
    forall r | r in after ::
      || (r in before && after[r] == before[r])
      || exists i :: 0 <= i < |specs| && after[r] == specs[i] && !NameTaken(before, specs[i].name)
  }

  predicate VehiclesFrom(before: map<int, Vehicle>, specs: seq<Vehicle>, after: map<int, Vehicle>) {
    forall v | v in after ::
      || (v in before && after[v] == before[v])
      || exists i :: 0 <= i < |specs| && after[v] == specs[i] && !CodeTaken(before, specs[i].code)
  }

  lemma {:induction false} SeededRoutes(db: Db, specs: seq<Route>)
    requires Sound(db) && SpecsValid(specs)
    ensures RoutesFrom(db.routes, specs, SeedRoutes(db, specs).routes)
  {
    if specs != [] {
      var n := |specs| - 1;
      var before, after := SeedRoutes(db, specs[..n]), SeedRoutes(db, specs);
      SeededRoutes(db, specs[..n]);
      RoutesSeeded(db, specs[..n]);
      StillTaken(db.routes, before.routes, specs[n].name);
      forall r | r in after.routes && !(r in db.routes && after.routes[r] == db.routes[r])
        ensures exists i :: 0 <= i < |specs| && after.routes[r] == specs[i] && !NameTaken(db.routes, specs[i].name)
      {
        if r in before.routes && after.routes[r] == before.routes[r] {
          var i :| 0 <= i < n && before.routes[r] == specs[..n][i] && !NameTaken(db.routes, specs[..n][i].name);
          assert specs[..n][i] == specs[i];
        } else {
          assert after.routes[r] == specs[n];
        }
      }
    }
  }

  lemma StillTaken(before: map<int, Route>, after: map<int, Route>, name: string)
    requires Extends(before, after)
    ensures NameTaken(before, name) ==> NameTaken(after, name)
  {
    if NameTaken(before, name) {
      var r :| r in before && before[r].name == name;
      assert after[r].name == name;
    }
  }

  lemma {:induction false} SeededVehicles(db: Db, specs: seq<Vehicle>)
    requires Sound(db)
    ensures VehiclesFrom(db.vehicles, specs, SeedVehicles(db, specs).vehicles)
  {
    if specs != [] {
      var n := |specs| - 1;
      var before, after := SeedVehicles(db, specs[..n]), SeedVehicles(db, specs);
      SeededVehicles(db, specs[..n]);
      VehiclesSeeded(db, specs[..n]);
      CodeStillTaken(db.vehicles, before.vehicles, specs[n].code);
      forall v | v in after.vehicles && !(v in db.vehicles && after.vehicles[v] == db.vehicles[v])
        ensures exists i :: 0 <= i < |specs| && after.vehicles[v] == specs[i] && !CodeTaken(db.vehicles, specs[i].code)
      {
        if v in before.vehicles && after.vehicles[v] == before.vehicles[v] {
          var i :| 0 <= i < n && before.vehicles[v] == specs[..n][i] && !CodeTaken(db.vehicles, specs[..n][i].code);
          assert specs[..n][i] == specs[i];
        } else {
          assert after.vehicles[v] == specs[n];
        }
      }
    }
  }

  lemma CodeStillTaken(before: map<int, Vehicle>, after: map<int, Vehicle>, code: string)
    requires Extends(before, after)
    ensures CodeTaken(before, code) ==> CodeTaken(after, code)
  {
    if CodeTaken(before, code) {
      var v :| v in before && before[v].code == code;
      assert after[v].code == code;
    }
  }

  ghost predicate IsDriver(before: map<int, User>, d: DemoDriver, after: Db, user: User) {
    && user.email == d.email && !user.isAdmin && !EmailTaken(before, d.email)
    && PairNamed(after, user, d.route, d.code)
  }

  /** Every user was there before, or is a missing driver: no admin, with the pair named for it. */
  ghost predicate UsersFrom(before: map<int, User>, drivers: seq<DemoDriver>, after: Db) {
    forall u | u in after.users ::
      || (u in before && after.users[u] == before[u])
      || exists i :: 0 <= i < |drivers| && IsDriver(before, drivers[i], after, after.users[u])
  }

  lemma {:induction false} SeededDrivers(db: Db, drivers: seq<DemoDriver>)
    requires Sound(db) && NamesPresent(db, drivers)
    ensures UsersFrom(db.users, drivers, SeedDrivers(db, drivers))
  {
    if drivers != [] {
      var n := |drivers| - 1;
      var front, d := drivers[..n], drivers[n];
      var before, after := SeedDrivers(db, front), SeedDrivers(db, drivers);
      assert forall i | 0 <= i < n :: front[i] == drivers[i];
      SeededDrivers(db, front);
      DriversSeeded(db, front);
      NewDriver(db, before, d);
      forall u | u in after.users && !(u in db.users && after.users[u] == db.users[u])
        ensures exists i :: 0 <= i < |drivers| && IsDriver(db.users, drivers[i], after, after.users[u])
      {
        if u in before.users && after.users[u] == before.users[u] {
          var i :| 0 <= i < n && IsDriver(db.users, front[i], before, before.users[u]);
          assert IsDriver(db.users, drivers[i], after, after.users[u]);
        } else {
          assert IsDriver(db.users, drivers[n], after, after.users[u]);
        }
      }
    }
  }

  lemma NewDriver(db: Db, before: Db, d: DemoDriver)
    requires Sound(db) && Grows(db, before) && before.routes == db.routes && before.vehicles == db.vehicles
    requires NameTaken(db.routes, d.route) && CodeTaken(db.vehicles, d.code)
    ensures PairNamed(before, DriverRow(before, d), d.route, d.code)
    ensures DriverRow(before, d).email == d.email && !DriverRow(before, d).isAdmin
    ensures EmailTaken(db.users, d.email) ==> EmailTaken(before.users, d.email)
  {
    if EmailTaken(db.users, d.email) {
      var u :| u in db.users && db.users[u].email == d.email;
      assert before.users[u].email == d.email;
    }
  }

  /** All that seeding adds to a database: missing demo routes with their waypoints, missing demo vehicles,
      which are active, a missing admin without a pair, and missing drivers, who are no admins and get the
      route and the vehicle named for them. */
  lemma SeedAddsExactly(db: Db)
    requires Sound(db)
    ensures RoutesFrom(db.routes, DEMO_ROUTES, Seed(db).routes)
    ensures VehiclesFrom(db.vehicles, DEMO_VEHICLES, Seed(db).vehicles)
    ensures forall v | v in Seed(db).vehicles && v !in db.vehicles :: Seed(db).vehicles[v].isActive
    ensures forall u | u in Seed(db).users ::
              var user := Seed(db).users[u];
              || (u in db.users && user == db.users[u])
              || (user == User("admin@fleet.com", true, None, None) && !EmailTaken(db.users, "admin@fleet.com"))
              || exists i :: 0 <= i < |DEMO_DRIVERS| && IsDriver(db.users, DEMO_DRIVERS[i], Seed(db), user)
  {
    FleetAdds(db);
    DriversAdd(db);
    DemoVehiclesActive();
  }

  lemma FleetAdds(db: Db)
    requires Sound(db)
    ensures RoutesFrom(db.routes, DEMO_ROUTES, Seed(db).routes)
    ensures VehiclesFrom(db.vehicles, DEMO_VEHICLES, Seed(db).vehicles)
  {
    hide SeedRoutes, SeedVehicles, SeedUser, RoutesFrom, VehiclesFrom;
    FleetPhases(db);
    SeededRoutes(db, DEMO_ROUTES);
    SeededVehicles(SeedRoutes(db, DEMO_ROUTES), DEMO_VEHICLES);
    DriversSeeded(SeedFleet(db), DEMO_DRIVERS);
  }

  lemma DriversAdd(db: Db)
    requires Sound(db)
    ensures forall u | u in Seed(db).users ::
              var user := Seed(db).users[u];
              || (u in db.users && user == db.users[u])
              || (user == User("admin@fleet.com", true, None, None) && !EmailTaken(db.users, "admin@fleet.com"))
              || exists i :: 0 <= i < |DEMO_DRIVERS| && IsDriver(db.users, DEMO_DRIVERS[i], Seed(db), user)
  {
    var fleet := SeedFleet(db);
    FleetSeeded(db);
    DemoNamesPresent(fleet);
    SeededDrivers(fleet, DEMO_DRIVERS);
    DemoDriversDistinct();
    forall i | 0 <= i < |DEMO_DRIVERS|
      ensures EmailTaken(fleet.users, DEMO_DRIVERS[i].email) <==> EmailTaken(db.users, DEMO_DRIVERS[i].email)
    {
      AdminSeparate(db, fleet.users, DEMO_DRIVERS[i].email);
    }
    assert forall i | 0 <= i < |DEMO_DRIVERS| ::
        forall user :: IsDriver(fleet.users, DEMO_DRIVERS[i], Seed(db), user)
                       ==> IsDriver(db.users, DEMO_DRIVERS[i], Seed(db), user);
  }

  lemma DemoVehiclesActive()
    ensures forall i | 0 <= i < |DEMO_VEHICLES| :: DEMO_VEHICLES[i].isActive
  {
  }

  /** A wipe empties the five tables; ids go on where they were, so none is issued again. */
  lemma WipeEmpties(db: Db)
    ensures var after := Wipe(db);
            && after.routes == map[] && after.vehicles == map[] && after.users == map[]
            && after.points == [] && after.current == map[]
            && after.nextRoute == db.nextRoute && after.nextVehicle == db.nextVehicle
            && after.nextUser == db.nextUser && after.nextPoint == db.nextPoint
  {
  }

  // ----- The condition can fail ----------------------------------------------------------------

  /** Four admin calls on an empty database that give a route to a first user. */
  function TakeRoute(name: string, ws: seq<Waypoint>, code: string): seq<Call> {
    [CreateRoute(name, ws), CreateVehicle(code, code, true),
     CreateUser("ops@fleet.com", false), SetAssignment(1, Some(1), Some(1))]
  }

  lemma ApplyFour(db: Db, a: Call, b: Call, c: Call, d: Call)
    ensures ApplyAll(db, [a, b, c, d]) == Apply(Apply(Apply(Apply(db, a), b), c), d)
  {
    hide Apply;
    assert [a, b, c, d][..3] == [a, b, c] && [a, b, c][..2] == [a, b] && [a, b][..1] == [a] && [a][..0] == [];
    assert ApplyAll(db, [a]) == Apply(ApplyAll(db, []), a);
    assert ApplyAll(db, [a, b]) == Apply(ApplyAll(db, [a]), b);
    assert ApplyAll(db, [a, b, c]) == Apply(ApplyAll(db, [a, b]), c);
  }

  lemma RouteTaken(name: string, ws: seq<Waypoint>, code: string)
    requires ValidName(name) && ValidWaypoints(ws) && ValidCode(code)
    ensures var db := ApplyAll(EMPTY_DB, TakeRoute(name, ws, code));
            && db.users == map[1 := User("ops@fleet.com", false, Some(1), Some(1))]
            && 1 in db.routes && db.routes[1].name == name
  {
    var calls := TakeRoute(name, ws, code);
    ApplyFour(EMPTY_DB, calls[0], calls[1], calls[2], calls[3]);
    var a := Apply(EMPTY_DB, calls[0]);
    var b := Apply(a, calls[1]);
    var c := Apply(b, calls[2]);
    assert a.routes == map[1 := Route(name, ws)];
    assert b.vehicles == map[1 := Vehicle(code, code, true)] && b.routes == a.routes;
    assert c.users == map[1 := User("ops@fleet.com", false, None, None)];
    assert c.vehicles == b.vehicles && c.routes == a.routes;
  }

  /** The route of a demo driver, given to a user who is no demo driver. */
  function RouteTakenFirst(): seq<Call> {
    TakeRoute("Marina to Central", DEMO_ROUTES[2].waypoints, "BUS-100")
  }

  /** The condition can fail: after these calls, seeding hands the route to a second user. */
  lemma SeedCanShareRoute()
    ensures var db := ApplyAll(EMPTY_DB, RouteTakenFirst());
            Proper(db) && !OneToOne(Seed(db).users)
  {
    var db := ApplyAll(EMPTY_DB, RouteTakenFirst());
    EmptyIsProper();
    AdminRunKeeps(EMPTY_DB, RouteTakenFirst());
    DemoRoutesValid();
    RouteTaken("Marina to Central", DEMO_ROUTES[2].waypoints, "BUS-100");
    assert !EmailTaken(db.users, DEMO_DRIVERS[2].email);
    assert NamedRouteHeld(db, DEMO_DRIVERS[2].route);
    SeedOneToOneExactly(db);
  }
}
