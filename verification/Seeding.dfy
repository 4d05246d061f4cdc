/** The demo seeding (app/seed.py): its steps, and what it does to a database in use. */
module Seeding {
  import opened Schema
  import opened FleetAdmin

  datatype DemoDriver = DemoDriver(email: string, route: string, code: string)

  datatype Created = Created(routes: nat, vehicles: nat, users: nat)

  const ADMIN_EMAIL := "admin@fleet.com"

  const DEMO_ROUTES := [
    Route("City Center to Airport",
          [Waypoint(13.0827, 80.2707), Waypoint(13.0417, 80.2345), Waypoint(12.9941, 80.1709)]),
    Route("OMR Tech Corridor",
          [Waypoint(13.0093, 80.2481), Waypoint(12.9600, 80.2400), Waypoint(12.9010, 80.2279)]),
    Route("Marina to Central",
          [Waypoint(13.0552, 80.2824), Waypoint(13.0665, 80.2685), Waypoint(13.0827, 80.2707)]),
    Route("T. Nagar to Guindy",
          [Waypoint(13.0418, 80.2341), Waypoint(13.0254, 80.2274), Waypoint(13.0104, 80.2206)])]

  const DEMO_VEHICLES := [
    Vehicle("BUS-001", "Chennai Express", true), Vehicle("BUS-002", "OMR Flier", true),
    Vehicle("BUS-003", "Marina Cruiser", true), Vehicle("BUS-004", "Guindy Shuttle", true)]

  const DEMO_DRIVERS := [
    DemoDriver("ravi@fleet.com", "City Center to Airport", "BUS-001"),
    DemoDriver("priya@fleet.com", "OMR Tech Corridor", "BUS-002"),
    DemoDriver("arun@fleet.com", "Marina to Central", "BUS-003"),
    DemoDriver("divya@fleet.com", "T. Nagar to Guindy", "BUS-004")]

  // ----- The steps -----------------------------------------------------------------------------

  /** All tables emptied; the id sequences go on. */
  function Wipe(db: Db): Db {
    db.(routes := map[], vehicles := map[], users := map[], points := [], current := map[])
  }

  function SeedRoute(db: Db, spec: Route): Db {
    if NameTaken(db.routes, spec.name) then db
    else db.(routes := db.routes[db.nextRoute := spec], nextRoute := db.nextRoute + 1)
  }

  function SeedVehicle(db: Db, spec: Vehicle): Db {
    if CodeTaken(db.vehicles, spec.code) then db
    else db.(vehicles := db.vehicles[db.nextVehicle := spec], nextVehicle := db.nextVehicle + 1)
  }

  function SeedUser(db: Db, user: User): Db {
    if EmailTaken(db.users, user.email) then db
    else db.(users := db.users[db.nextUser := user], nextUser := db.nextUser + 1)
  }

  ghost function RouteNamed(routes: map<int, Route>, name: string): Option<int> {
    if r :| r in routes && routes[r].name == name then Some(r) else None
  }

  ghost function VehicleCoded(vehicles: map<int, Vehicle>, code: string): Option<int> {
    if v :| v in vehicles && vehicles[v].code == code then Some(v) else None
  }

  /** The row of a demo driver, its route and vehicle found by name and code. */
  ghost function DriverRow(db: Db, d: DemoDriver): User {
    User(d.email, false, RouteNamed(db.routes, d.route), VehicleCoded(db.vehicles, d.code))
  }

  function SeedRoutes(db: Db, specs: seq<Route>): Db {
    if specs == [] then db else SeedRoute(SeedRoutes(db, specs[..|specs| - 1]), specs[|specs| - 1])
  }

  function SeedVehicles(db: Db, specs: seq<Vehicle>): Db {
    if specs == [] then db else SeedVehicle(SeedVehicles(db, specs[..|specs| - 1]), specs[|specs| - 1])
  }

  ghost function SeedDrivers(db: Db, drivers: seq<DemoDriver>): Db {
    if drivers == [] then db
    else
      var before := SeedDrivers(db, drivers[..|drivers| - 1]);
      SeedUser(before, DriverRow(before, drivers[|drivers| - 1]))
  }

  function SeedFleet(db: Db): Db {
    SeedUser(SeedVehicles(SeedRoutes(db, DEMO_ROUTES), DEMO_VEHICLES), User(ADMIN_EMAIL, true, None, None))
  }

  ghost function Seed(db: Db): Db {
    SeedDrivers(SeedFleet(db), DEMO_DRIVERS)
  }

  // ----- What every step keeps -----------------------------------------------------------------

  predicate Extends<T(==)>(a: map<int, T>, b: map<int, T>) {
    forall k | k in a :: k in b && a[k] == b[k]
  }

  /** Existing rows are untouched, and tracking data is not looked at. */
  predicate Grows(a: Db, b: Db) {
    && Extends(a.routes, b.routes) && Extends(a.vehicles, b.vehicles) && Extends(a.users, b.users)
    && a.points == b.points && a.current == b.current && a.nextPoint == b.nextPoint
  }

  predicate SpecsValid(specs: seq<Route>) {
    forall i | 0 <= i < |specs| :: ValidWaypoints(specs[i].waypoints)
  }

  lemma {:induction false} RoutesSeeded(db: Db, specs: seq<Route>)
    requires Sound(db) && SpecsValid(specs)
    ensures var after := SeedRoutes(db, specs);
            && Sound(after) && Grows(db, after)
            && after.vehicles == db.vehicles && after.users == db.users
            && after.nextVehicle == db.nextVehicle && after.nextUser == db.nextUser
            && (forall i | 0 <= i < |specs| :: NameTaken(after.routes, specs[i].name))
  {
    if specs != [] {
      var n := |specs| - 1;
      var before := SeedRoutes(db, specs[..n]);
      RoutesSeeded(db, specs[..n]);
      RouteStep(before, specs[n]);
      var after := SeedRoutes(db, specs);
      forall i | 0 <= i < |specs| ensures NameTaken(after.routes, specs[i].name) {
        if i < n {
          assert specs[..n][i] == specs[i];
          var r :| r in before.routes && before.routes[r].name == specs[i].name;
          assert after.routes[r].name == specs[i].name;
        }
      }
    }
  }

  lemma RouteStep(db: Db, spec: Route)
    requires Sound(db) && ValidWaypoints(spec.waypoints)
    ensures var after := SeedRoute(db, spec);
            Sound(after) && Grows(db, after) && NameTaken(after.routes, spec.name)
  {
    var after := SeedRoute(db, spec);
    assert db.nextRoute !in db.routes;
    if !NameTaken(db.routes, spec.name) {
      assert after.routes[db.nextRoute].name == spec.name;
    }
  }

  lemma VehicleStep(db: Db, spec: Vehicle)
    requires Sound(db)
    ensures var after := SeedVehicle(db, spec);
            Sound(after) && Grows(db, after) && CodeTaken(after.vehicles, spec.code)
  {
    var after := SeedVehicle(db, spec);
    assert db.nextVehicle !in db.vehicles;
    if !CodeTaken(db.vehicles, spec.code) {
      assert after.vehicles[db.nextVehicle].code == spec.code;
    }
  }

  lemma UserStep(db: Db, user: User)
    requires Sound(db)
    requires user.routeId.Some? ==> user.routeId.value in db.routes
    requires user.vehicleId.Some? ==> user.vehicleId.value in db.vehicles
    ensures var after := SeedUser(db, user);
            Sound(after) && Grows(db, after) && EmailTaken(after.users, user.email)
  {
    var after := SeedUser(db, user);
    assert db.nextUser !in db.users;
    if !EmailTaken(db.users, user.email) {
      assert after.users[db.nextUser].email == user.email;
    }
  }

  lemma {:induction false} VehiclesSeeded(db: Db, specs: seq<Vehicle>)
    requires Sound(db)
    ensures var after := SeedVehicles(db, specs);
            && Sound(after) && Grows(db, after)
            && after.routes == db.routes && after.users == db.users
            && after.nextRoute == db.nextRoute && after.nextUser == db.nextUser
            && (forall i | 0 <= i < |specs| :: CodeTaken(after.vehicles, specs[i].code))
  {
    if specs != [] {
      var n := |specs| - 1;
      var before := SeedVehicles(db, specs[..n]);
      VehiclesSeeded(db, specs[..n]);
      VehicleStep(before, specs[n]);
      var after := SeedVehicles(db, specs);
      forall i | 0 <= i < |specs| ensures CodeTaken(after.vehicles, specs[i].code) {
        if i < n {
          assert specs[..n][i] == specs[i];
          var v :| v in before.vehicles && before.vehicles[v].code == specs[i].code;
          assert after.vehicles[v].code == specs[i].code;
        }
      }
    }
  }

  lemma {:induction false} DriversSeeded(db: Db, drivers: seq<DemoDriver>)
    requires Sound(db)
    ensures var after := SeedDrivers(db, drivers);
            && Sound(after) && Grows(db, after)
            && after.(users := db.users, nextUser := db.nextUser) == db
            && (forall i | 0 <= i < |drivers| :: EmailTaken(after.users, drivers[i].email))
  {
    if drivers != [] {
      var n := |drivers| - 1;
      var before := SeedDrivers(db, drivers[..n]);
      DriversSeeded(db, drivers[..n]);
      UserStep(before, DriverRow(before, drivers[n]));
      var after := SeedDrivers(db, drivers);
      forall i | 0 <= i < |drivers| ensures EmailTaken(after.users, drivers[i].email) {
        if i < n {
          assert drivers[..n][i] == drivers[i];
          var u :| u in before.users && before.users[u].email == drivers[i].email;
          assert after.users[u].email == drivers[i].email;
        }
      }
    }
  }

  lemma DemoRoutesValid()
    ensures SpecsValid(DEMO_ROUTES)
  {
  }

  /** Every demo row is there. */
  predicate DemoPresent(db: Db) {
    && (forall i | 0 <= i < |DEMO_ROUTES| :: NameTaken(db.routes, DEMO_ROUTES[i].name))
    && (forall i | 0 <= i < |DEMO_VEHICLES| :: CodeTaken(db.vehicles, DEMO_VEHICLES[i].code))
    && EmailTaken(db.users, ADMIN_EMAIL)
    && (forall i | 0 <= i < |DEMO_DRIVERS| :: EmailTaken(db.users, DEMO_DRIVERS[i].email))
  }

  lemma FleetSeeded(db: Db)
    requires Sound(db)
    ensures var after := SeedFleet(db);
            && Sound(after) && Grows(db, after) && EmailTaken(after.users, ADMIN_EMAIL)
            && (forall i | 0 <= i < |DEMO_ROUTES| :: NameTaken(after.routes, DEMO_ROUTES[i].name))
            && (forall i | 0 <= i < |DEMO_VEHICLES| :: CodeTaken(after.vehicles, DEMO_VEHICLES[i].code))
            && after.users == SeedUser(db, User(ADMIN_EMAIL, true, None, None)).users
  {
    hide Sound, Extends, NameTaken, CodeTaken, SpecsValid, SeedRoutes, SeedVehicles, SeedUser;
    DemoRoutesValid();
    var a := SeedRoutes(db, DEMO_ROUTES);
    RoutesSeeded(db, DEMO_ROUTES);
    var b := SeedVehicles(a, DEMO_VEHICLES);
    VehiclesSeeded(a, DEMO_VEHICLES);
    UserStep(b, User(ADMIN_EMAIL, true, None, None));
    UserAlone(db, b, User(ADMIN_EMAIL, true, None, None));
    GrowsOn(db, a, b);
    GrowsOn(db, b, SeedFleet(db));
  }

  lemma GrowsOn(a: Db, b: Db, c: Db)
    requires Grows(a, b) && Grows(b, c)
    ensures Grows(a, c)
  {
  }

  /** A user row is added whatever the other tables hold, and leaves them alone. */
  lemma UserAlone(a: Db, b: Db, user: User)
    requires a.users == b.users && a.nextUser == b.nextUser
    ensures SeedUser(a, user).users == SeedUser(b, user).users
    ensures SeedUser(b, user).routes == b.routes && SeedUser(b, user).vehicles == b.vehicles
  {
  }

  /** From any sound database seeding ends in a sound one, adds rows only, and leaves nothing
      of the demo missing. */
  lemma SeedKeeps(db: Db)
    requires Sound(db)
    ensures Sound(Seed(db)) && Grows(db, Seed(db)) && DemoPresent(Seed(db))
  {
    var fleet := SeedFleet(db);
    FleetSeeded(db);
    DriversSeeded(fleet, DEMO_DRIVERS);
    var u :| u in fleet.users && fleet.users[u].email == ADMIN_EMAIL;
    assert Seed(db).users[u].email == ADMIN_EMAIL;
  }

  lemma {:induction false} RoutesThere(db: Db, specs: seq<Route>)
    requires forall i | 0 <= i < |specs| :: NameTaken(db.routes, specs[i].name)
    ensures SeedRoutes(db, specs) == db
  {
    if specs != [] {
      RoutesThere(db, specs[..|specs| - 1]);
    }
  }

  lemma {:induction false} VehiclesThere(db: Db, specs: seq<Vehicle>)
    requires forall i | 0 <= i < |specs| :: CodeTaken(db.vehicles, specs[i].code)
    ensures SeedVehicles(db, specs) == db
  {
    if specs != [] {
      VehiclesThere(db, specs[..|specs| - 1]);
    }
  }

  lemma {:induction false} DriversThere(db: Db, drivers: seq<DemoDriver>)
    requires forall i | 0 <= i < |drivers| :: EmailTaken(db.users, drivers[i].email)
    ensures SeedDrivers(db, drivers) == db
  {
    if drivers != [] {
      DriversThere(db, drivers[..|drivers| - 1]);
    }
  }

  /** Seeding again adds nothing. */
  lemma SeedIsIdempotent(db: Db)
    requires Sound(db)
    ensures Seed(Seed(db)) == Seed(db)
  {
    var after := Seed(db);
    SeedKeeps(db);
    RoutesThere(after, DEMO_ROUTES);
    VehiclesThere(after, DEMO_VEHICLES);
    DriversThere(after, DEMO_DRIVERS);
  }

  // ----- The script ----------------------------------------------------------------------------

  method Truncate(db: Session)
    modifies db
    ensures db.State() == Wipe(old(db.State()))
  {
    db.points := [];
    db.current := map[];
    db.users := map[];
    db.vehicles := map[];
    db.routes := map[];
  }

  /** `dict` finds the row of every name in `specs`. */
  ghost predicate FindsRoutes(dict: map<string, int>, db: Db, specs: seq<Route>) {
    forall i | 0 <= i < |specs| ::
      && specs[i].name in dict && dict[specs[i].name] in db.routes
      && db.routes[dict[specs[i].name]].name == specs[i].name
  }

  ghost predicate FindsVehicles(dict: map<string, int>, db: Db, specs: seq<Vehicle>) {
    forall i | 0 <= i < |specs| ::
      && specs[i].code in dict && dict[specs[i].code] in db.vehicles
      && db.vehicles[dict[specs[i].code]].code == specs[i].code
  }

  method SeedRouteRow(db: Session, spec: Route) returns (id: int, created: nat)
    requires KeysDrawn(db.routes, db.nextRoute)
    modifies db
    ensures db.State() == SeedRoute(old(db.State()), spec)
    ensures id in db.routes && db.routes[id].name == spec.name
    ensures |db.routes| == old(|db.routes|) + created
  {
    if r :| r in db.routes && db.routes[r].name == spec.name {
      return r, 0;
    }
    id := db.nextRoute;
    db.routes := db.routes[id := spec];
    db.nextRoute := id + 1;
    return id, 1;
  }

  method SeedVehicleRow(db: Session, spec: Vehicle) returns (id: int, created: nat)
    requires KeysDrawn(db.vehicles, db.nextVehicle)
    modifies db
    ensures db.State() == SeedVehicle(old(db.State()), spec)
    ensures id in db.vehicles && db.vehicles[id].code == spec.code
    ensures |db.vehicles| == old(|db.vehicles|) + created
  {
    if v :| v in db.vehicles && db.vehicles[v].code == spec.code {
      return v, 0;
    }
    id := db.nextVehicle;
    db.vehicles := db.vehicles[id := spec];
    db.nextVehicle := id + 1;
    return id, 1;
  }

  method SeedUserRow(db: Session, user: User) returns (created: nat)
    requires KeysDrawn(db.users, db.nextUser)
    modifies db
    ensures db.State() == SeedUser(old(db.State()), user)
    ensures |db.users| == old(|db.users|) + created
  {
    if exists u | u in db.users :: db.users[u].email == user.email {
      return 0;
    }
    db.users := db.users[db.nextUser := user];
    db.nextUser := db.nextUser + 1;
    return 1;
  }

  lemma PrefixGrows<T>(s: seq<T>, i: nat)
    requires i < |s|
    ensures s[..i + 1] == s[..i] + [s[i]] && s[..i + 1][..i] == s[..i] && s[..|s|] == s
  {
  }

  lemma DictKept(dict: map<string, int>, a: Db, b: Db, specs: seq<Route>, spec: Route, id: int)
    requires FindsRoutes(dict, a, specs) && Extends(a.routes, b.routes)
    requires id in b.routes && b.routes[id].name == spec.name
    ensures FindsRoutes(dict[spec.name := id], b, specs + [spec])
  {
    forall i | 0 <= i < |specs|
      ensures dict[specs[i].name] in b.routes && b.routes[dict[specs[i].name]].name == specs[i].name
    {
      var k: int := dict[specs[i].name];
      assert k in a.routes && a.routes[k] == b.routes[k];
    }
  }

  lemma VehicleDictKept(dict: map<string, int>, a: Db, b: Db, specs: seq<Vehicle>, spec: Vehicle, id: int)
    requires FindsVehicles(dict, a, specs) && Extends(a.vehicles, b.vehicles)
    requires id in b.vehicles && b.vehicles[id].code == spec.code
    ensures FindsVehicles(dict[spec.code := id], b, specs + [spec])
  {
    forall i | 0 <= i < |specs|
      ensures dict[specs[i].code] in b.vehicles && b.vehicles[dict[specs[i].code]].code == specs[i].code
    {
      var k: int := dict[specs[i].code];
      assert k in a.vehicles && a.vehicles[k] == b.vehicles[k];
    }
  }

  method SeedRouteRows(db: Session, specs: seq<Route>) returns (routes: map<string, int>, created: nat)
    requires Sound(db.State()) && SpecsValid(specs)
    modifies db
    ensures db.State() == SeedRoutes(old(db.State()), specs)
    ensures FindsRoutes(routes, db.State(), specs)
    ensures |db.routes| == old(|db.routes|) + created
  {
    routes, created := map[], 0;
    ghost var start := db.State();
    for i := 0 to |specs|
      invariant db.State() == SeedRoutes(start, specs[..i])
      invariant Sound(db.State())
      invariant FindsRoutes(routes, db.State(), specs[..i])
      invariant |db.routes| == |start.routes| + created
    {
      ghost var was := db.State();
      var id, one := SeedRouteRow(db, specs[i]);
      RouteStep(was, specs[i]);
      PrefixGrows(specs, i);
      DictKept(routes, was, db.State(), specs[..i], specs[i], id);
      routes := routes[specs[i].name := id];
      created := created + one;
    }
    assert specs[..|specs|] == specs;
  }

  method SeedVehicleRows(db: Session, specs: seq<Vehicle>) returns (vehicles: map<string, int>, created: nat)
    requires Sound(db.State())
    modifies db
    ensures db.State() == SeedVehicles(old(db.State()), specs)
    ensures FindsVehicles(vehicles, db.State(), specs)
    ensures |db.vehicles| == old(|db.vehicles|) + created
  {
    vehicles, created := map[], 0;
    ghost var start := db.State();
    for i := 0 to |specs|
      invariant db.State() == SeedVehicles(start, specs[..i])
      invariant Sound(db.State())
      invariant FindsVehicles(vehicles, db.State(), specs[..i])
      invariant |db.vehicles| == |start.vehicles| + created
    {
      ghost var was := db.State();
      var id, one := SeedVehicleRow(db, specs[i]);
      VehicleStep(was, specs[i]);
      PrefixGrows(specs, i);
      VehicleDictKept(vehicles, was, db.State(), specs[..i], specs[i], id);
      vehicles := vehicles[specs[i].code := id];
      created := created + one;
    }
    assert specs[..|specs|] == specs;
  }

  lemma RouteNamedIs(routes: map<int, Route>, name: string, r: int)
    requires NamesUnique(routes) && r in routes && routes[r].name == name
    ensures RouteNamed(routes, name) == Some(r)
  {
  }

  lemma VehicleCodedIs(vehicles: map<int, Vehicle>, code: string, v: int)
    requires CodesUnique(vehicles) && v in vehicles && vehicles[v].code == code
    ensures VehicleCoded(vehicles, code) == Some(v)
  {
  }

  /** The dictionaries hold what the queries by name and code would return. */
  ghost predicate DictsServe(routes: map<string, int>, vehicles: map<string, int>, db: Db, drivers: seq<DemoDriver>) {
    forall i | 0 <= i < |drivers| ::
      && drivers[i].route in routes && RouteNamed(db.routes, drivers[i].route) == Some(routes[drivers[i].route])
      && drivers[i].code in vehicles && VehicleCoded(db.vehicles, drivers[i].code) == Some(vehicles[drivers[i].code])
  }

  method SeedDriverRows(db: Session, drivers: seq<DemoDriver>, routes: map<string, int>, vehicles: map<string, int>)
    returns (created: nat)
    requires Sound(db.State()) && DictsServe(routes, vehicles, db.State(), drivers)
    modifies db
    ensures db.State() == SeedDrivers(old(db.State()), drivers)
    ensures |db.users| == old(|db.users|) + created
  {
    created := 0;
    ghost var start := db.State();
    for i := 0 to |drivers|
      invariant db.State() == SeedDrivers(start, drivers[..i])
      invariant Sound(db.State()) && db.routes == start.routes && db.vehicles == start.vehicles
      invariant |db.users| == |start.users| + created
    {
      var d := drivers[i];
      ghost var was := db.State();
      var user := User(d.email, false, Some(routes[d.route]), Some(vehicles[d.code]));
      assert user == DriverRow(was, d);
      var one := SeedUserRow(db, user);
      UserStep(was, DriverRow(was, d));
      PrefixGrows(drivers, i);
      created := created + one;
    }
    assert drivers[..|drivers|] == drivers;
  }

  lemma DemoDictsServe(routes: map<string, int>, vehicles: map<string, int>, db: Db)
    requires KeysUnique(db) && FindsRoutes(routes, db, DEMO_ROUTES) && FindsVehicles(vehicles, db, DEMO_VEHICLES)
    ensures DictsServe(routes, vehicles, db, DEMO_DRIVERS)
  {
    forall i | 0 <= i < |DEMO_DRIVERS|
      ensures DEMO_DRIVERS[i].route in routes
              && RouteNamed(db.routes, DEMO_DRIVERS[i].route) == Some(routes[DEMO_DRIVERS[i].route])
      ensures DEMO_DRIVERS[i].code in vehicles
              && VehicleCoded(db.vehicles, DEMO_DRIVERS[i].code) == Some(vehicles[DEMO_DRIVERS[i].code])
    {
      assert DEMO_DRIVERS[i].route == DEMO_ROUTES[i].name && DEMO_DRIVERS[i].code == DEMO_VEHICLES[i].code;
      RouteNamedIs(db.routes, DEMO_DRIVERS[i].route, routes[DEMO_DRIVERS[i].route]);
      VehicleCodedIs(db.vehicles, DEMO_DRIVERS[i].code, vehicles[DEMO_DRIVERS[i].code]);
    }
  }

  lemma WipeKeepsSound(db: Db)
    requires Sound(db)
    ensures Sound(Wipe(db))
  {
    assert forall v :: !HasHistory([], v);
  }

  /** Each phase adds rows to one table of a sound database. */
  lemma FleetPhases(db: Db)
    requires Sound(db)
    ensures SpecsValid(DEMO_ROUTES)
    ensures var a := SeedRoutes(db, DEMO_ROUTES);
            var b := SeedVehicles(a, DEMO_VEHICLES);
            && Sound(a) && a.vehicles == db.vehicles && a.users == db.users
            && b.routes == a.routes && b.users == db.users && KeysDrawn(b.users, b.nextUser)
            && SeedFleet(db).routes == a.routes && SeedFleet(db).vehicles == b.vehicles
            && Sound(SeedFleet(db))
  {
    DemoRoutesValid();
    RoutesSeeded(db, DEMO_ROUTES);
    VehiclesSeeded(SeedRoutes(db, DEMO_ROUTES), DEMO_VEHICLES);
    FleetSeeded(db);
  }

  /** The routes and vehicles, then the admin: everything but the drivers. */
  method SeedFleetRows(db: Session)
    returns (routes: map<string, int>, vehicles: map<string, int>, created: Created)
    requires Sound(db.State())
    modifies db
    ensures db.State() == SeedFleet(old(db.State())) && Sound(db.State())
    ensures FindsRoutes(routes, db.State(), DEMO_ROUTES) && FindsVehicles(vehicles, db.State(), DEMO_VEHICLES)
    ensures |db.routes| == old(|db.routes|) + created.routes
    ensures |db.vehicles| == old(|db.vehicles|) + created.vehicles
    ensures |db.users| == old(|db.users|) + created.users
  {
    FleetPhases(db.State());
    var newRoutes, newVehicles, newUsers;
    routes, newRoutes := SeedRouteRows(db, DEMO_ROUTES);
    vehicles, newVehicles := SeedVehicleRows(db, DEMO_VEHICLES);
    newUsers := SeedUserRow(db, User(ADMIN_EMAIL, true, None, None));
    created := Created(newRoutes, newVehicles, newUsers);
  }

  /** The script: wipe if asked to, then create what is missing; the counts are the rows added. */
  method RunSeed(db: Session, wipeFirst: bool) returns (created: Created)
    requires Sound(db.State())
    modifies db
    ensures var start := if wipeFirst then Wipe(old(db.State())) else old(db.State());
            && db.State() == Seed(start)
            && |db.routes| == |start.routes| + created.routes
            && |db.vehicles| == |start.vehicles| + created.vehicles
            && |db.users| == |start.users| + created.users
  {
    if wipeFirst {
      WipeKeepsSound(db.State());
      Truncate(db);
    }
    var routes, vehicles;
    routes, vehicles, created := SeedFleetRows(db);
    DemoDictsServe(routes, vehicles, db.State());
    ghost var fleet := db.State();
    var newDrivers := SeedDriverRows(db, DEMO_DRIVERS, routes, vehicles);
    DriversSeeded(fleet, DEMO_DRIVERS);
    created := created.(users := created.users + newDrivers);
  }
}
