/** The fleet database: its rows, its tables, and what the schema demands of them. */
module Schema {

  datatype Option<+T> = None | Some(value: T)

  datatype Waypoint = Waypoint(lat: real, lng: real)

  datatype Route = Route(name: string, waypoints: seq<Waypoint>)

  datatype Vehicle = Vehicle(code: string, name: string, isActive: bool)

  /** A user row; the assignment is the pair of nullable foreign keys. */
  datatype User = User(email: string, isAdmin: bool, routeId: Option<int>, vehicleId: Option<int>)

  /** The stored columns of a fix. NUMERIC(9,6) and NUMERIC(6,2) columns are held as whole
      millionths of a degree and whole hundredths of a km/h; instants are UTC microseconds. */
  datatype Fix = Fix(lat: int, lng: int, speed: int, recordedAt: int)

  datatype GpsPoint = GpsPoint(id: int, vehicleId: int, fix: Fix)

  /** The value of the whole database. `points` is in insertion order; the `next` fields are the
      id sequences, which neither deletes nor rollbacks ever turn back. */
  datatype Db = Db(
    routes: map<int, Route>, vehicles: map<int, Vehicle>, users: map<int, User>,
    points: seq<GpsPoint>, current: map<int, Fix>,
    nextRoute: int, nextVehicle: int, nextUser: int, nextPoint: int)

  const EMPTY_DB := Db(map[], map[], map[], [], map[], 1, 1, 1, 1)

  /** A session on the database, whose tables the services update in place. */
  class Session {
    var routes: map<int, Route>
    var vehicles: map<int, Vehicle>
    var users: map<int, User>
    var points: seq<GpsPoint>
    var current: map<int, Fix>
    var nextRoute: int
    var nextVehicle: int
    var nextUser: int
    var nextPoint: int

    constructor ()
      ensures State() == EMPTY_DB
    {
      routes, vehicles, users, points, current := map[], map[], map[], [], map[];
      nextRoute, nextVehicle, nextUser, nextPoint := 1, 1, 1, 1;
    }

    function State(): Db
      reads this
    {
      Db(routes, vehicles, users, points, current, nextRoute, nextVehicle, nextUser, nextPoint)
    }
  }

  function Lookup<T>(table: map<int, T>, id: int): Option<T> {
    if id in table then Some(table[id]) else None
  }

  // ----- Constraints ---------------------------------------------------------------------------

  predicate InBounds(w: Waypoint) {
    -90.0 <= w.lat <= 90.0 && -180.0 <= w.lng <= 180.0
  }

  /** What RouteCreate and RouteUpdate demand of a polyline. */
  predicate ValidWaypoints(ws: seq<Waypoint>) {
    2 <= |ws| <= 500 && forall w | w in ws :: InBounds(w)
  }

  predicate KeysDrawn<T>(table: map<int, T>, next: int) {
    1 <= next && forall k | k in table :: 1 <= k < next
  }

  /** Every id was drawn from its sequence, so an id is never issued twice. */
  predicate IdsDrawn(db: Db) {
    && KeysDrawn(db.routes, db.nextRoute)
    && KeysDrawn(db.vehicles, db.nextVehicle)
    && KeysDrawn(db.users, db.nextUser)
  }

  predicate NamesUnique(routes: map<int, Route>) {
    forall a, b | a in routes && b in routes && routes[a].name == routes[b].name :: a == b
  }

  predicate CodesUnique(vehicles: map<int, Vehicle>) {
    forall a, b | a in vehicles && b in vehicles && vehicles[a].code == vehicles[b].code :: a == b
  }

  predicate EmailsUnique(users: map<int, User>) {
    forall a, b | a in users && b in users && users[a].email == users[b].email :: a == b
  }

  predicate KeysUnique(db: Db) {
    NamesUnique(db.routes) && CodesUnique(db.vehicles) && EmailsUnique(db.users)
  }

  predicate UsersRefer(users: map<int, User>, routes: map<int, Route>, vehicles: map<int, Vehicle>) {
    forall u | u in users ::
      && (users[u].routeId.Some? ==> users[u].routeId.value in routes)
      && (users[u].vehicleId.Some? ==> users[u].vehicleId.value in vehicles)
  }

  predicate TrackingRefers(points: seq<GpsPoint>, current: map<int, Fix>, vehicles: map<int, Vehicle>) {
    && (forall i | 0 <= i < |points| :: points[i].vehicleId in vehicles)
    && (forall v | v in current :: v in vehicles)
  }

  /** Every foreign key points at an existing row. */
  predicate References(db: Db) {
    UsersRefer(db.users, db.routes, db.vehicles) && TrackingRefers(db.points, db.current, db.vehicles)
  }

  predicate RoutesWalkable(routes: map<int, Route>) {
    forall r | r in routes :: ValidWaypoints(routes[r].waypoints)
  }

  predicate PointsOrdered(points: seq<GpsPoint>, next: int) {
    && (forall i, j | 0 <= i < j < |points| :: points[i].id < points[j].id)
    && (forall i | 0 <= i < |points| :: points[i].id < next)
  }

  predicate Integrity(db: Db) {
    && IdsDrawn(db)
    && KeysUnique(db)
    && References(db)
    && RoutesWalkable(db.routes)
    && PointsOrdered(db.points, db.nextPoint)
  }

  // ----- The one-to-one assignment relation ----------------------------------------------------

  predicate HoldsRoute(user: User, route: int) {
    user.routeId == Some(route)
  }

  predicate HoldsVehicle(user: User, vehicle: int) {
    user.vehicleId == Some(vehicle)
  }

  predicate RouteHeld(users: map<int, User>, route: int) {
    exists u | u in users :: HoldsRoute(users[u], route)
  }

  predicate VehicleHeld(users: map<int, User>, vehicle: int) {
    exists u | u in users :: HoldsVehicle(users[u], vehicle)
  }

  predicate PairComplete(user: User) {
    user.routeId.Some? <==> user.vehicleId.Some?
  }

  /** Each user has both halves or neither, and no two users share a route or a vehicle. */
  predicate OneToOne(users: map<int, User>) {
    && (forall u | u in users :: PairComplete(users[u]))
    && (forall a, b | a in users && b in users && a != b ::
          && (users[a].routeId.Some? ==> users[a].routeId != users[b].routeId)
          && (users[a].vehicleId.Some? ==> users[a].vehicleId != users[b].vehicleId))
  }

  // ----- The current-location index ------------------------------------------------------------

  predicate HasHistory(points: seq<GpsPoint>, v: int) {
    exists i | 0 <= i < |points| :: points[i].vehicleId == v
  }

  /** Point `i` is the earliest inserted among the points of `v` with the greatest `recordedAt`. */
  predicate Wins(points: seq<GpsPoint>, v: int, i: int) {
    && 0 <= i < |points|
    && points[i].vehicleId == v
    && forall j | 0 <= j < |points| && points[j].vehicleId == v ::
         || points[j].fix.recordedAt < points[i].fix.recordedAt
         || (points[j].fix.recordedAt == points[i].fix.recordedAt && i <= j)
  }

  /** A vehicle has a current row exactly when it has history, and the row is its winning fix. */
  ghost predicate IndexAgrees(points: seq<GpsPoint>, current: map<int, Fix>) {
    forall v ::
      && (v in current <==> HasHistory(points, v))
      && (v in current ==> exists i :: Wins(points, v, i) && current[v] == points[i].fix)
  }

  /** What every reachable database satisfies. */
  ghost predicate Sound(db: Db) {
    Integrity(db) && IndexAgrees(db.points, db.current)
  }
}
