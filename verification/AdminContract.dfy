/** What each admin call does to the tables and what it answers, in the terms of the API
    (app/services/fleet_admin_service.py and app/schemas). */
module AdminContract {
  import opened Schema
  import opened FleetAdmin
  import opened AdminLaws

  // ----- What an accepted call does ------------------------------------------------------------

  /** The tables differ in row `id` at most. */
  ghost predicate OthersKept<T>(before: map<int, T>, after: map<int, T>, id: int) {
    forall k | k != id :: (k in after <==> k in before) && (k in before ==> after[k] == before[k])
  }

  ghost predicate Added<T>(before: map<int, T>, after: map<int, T>, id: int, row: T) {
    id !in before && id in after && after[id] == row && OthersKept(before, after, id)
  }

  ghost predicate Removed<T>(before: map<int, T>, after: map<int, T>, id: int) {
    id in before && id !in after && OthersKept(before, after, id)
  }

  ghost predicate Replaced<T>(before: map<int, T>, after: map<int, T>, id: int) {
    id in before && id in after && OthersKept(before, after, id)
  }

  /** A column of a partial update: the given value, and the old one where none was given. */
  predicate Column<T(==)>(before: T, after: T, change: Change<T>) {
    if change.Value? then after == change.value else after == before
  }

  predicate RoutesOnly(a: Db, b: Db) {
    && a.vehicles == b.vehicles && a.users == b.users && a.points == b.points && a.current == b.current
    && a.nextVehicle == b.nextVehicle && a.nextUser == b.nextUser && a.nextPoint == b.nextPoint
  }

  predicate VehiclesOnly(a: Db, b: Db) {
    && a.routes == b.routes && a.users == b.users && a.points == b.points && a.current == b.current
    && a.nextRoute == b.nextRoute && a.nextUser == b.nextUser && a.nextPoint == b.nextPoint
  }

  predicate UsersOnly(a: Db, b: Db) {
    && a.routes == b.routes && a.vehicles == b.vehicles && a.points == b.points && a.current == b.current
    && a.nextRoute == b.nextRoute && a.nextVehicle == b.nextVehicle && a.nextPoint == b.nextPoint
  }

  /** The named row, column by column, and nothing else. */
  ghost predicate Does(a: Db, call: Call, b: Db) {
    match call
    case CreateRoute(name, ws) =>
      RoutesOnly(a, b) && b.nextRoute == a.nextRoute + 1 && Added(a.routes, b.routes, a.nextRoute, Route(name, ws))
    case UpdateRoute(r, name, ws) =>
      && RoutesOnly(a, b) && b.nextRoute == a.nextRoute && Replaced(a.routes, b.routes, r)
      && Column(a.routes[r].name, b.routes[r].name, name)
      && Column(a.routes[r].waypoints, b.routes[r].waypoints, ws)
    case DeleteRoute(r) =>
      RoutesOnly(a, b) && b.nextRoute == a.nextRoute && Removed(a.routes, b.routes, r)
    case CreateVehicle(code, title, active) =>
      && VehiclesOnly(a, b) && b.nextVehicle == a.nextVehicle + 1
      && Added(a.vehicles, b.vehicles, a.nextVehicle, Vehicle(code, title, active))
    case UpdateVehicle(v, code, title, active) =>
      && VehiclesOnly(a, b) && b.nextVehicle == a.nextVehicle && Replaced(a.vehicles, b.vehicles, v)
      && Column(a.vehicles[v].code, b.vehicles[v].code, code)
      && Column(a.vehicles[v].name, b.vehicles[v].name, title)
      && Column(a.vehicles[v].isActive, b.vehicles[v].isActive, active)
    case DeleteVehicle(v) =>
      VehiclesOnly(a, b) && b.nextVehicle == a.nextVehicle && Removed(a.vehicles, b.vehicles, v)
    case CreateUser(email, admin) =>
      && UsersOnly(a, b) && b.nextUser == a.nextUser + 1
      && Added(a.users, b.users, a.nextUser, User(email, admin, None, None))
    case UpdateUser(u, email, admin) =>
      && UsersOnly(a, b) && b.nextUser == a.nextUser && Replaced(a.users, b.users, u)
      && Column(a.users[u].email, b.users[u].email, email) && Column(a.users[u].isAdmin, b.users[u].isAdmin, admin)
      && b.users[u].routeId == a.users[u].routeId && b.users[u].vehicleId == a.users[u].vehicleId
    case DeleteUser(u) =>
      UsersOnly(a, b) && b.nextUser == a.nextUser && Removed(a.users, b.users, u)
    case SetAssignment(u, r, v) =>
      && UsersOnly(a, b) && b.nextUser == a.nextUser && Replaced(a.users, b.users, u)
      && b.users[u].email == a.users[u].email && b.users[u].isAdmin == a.users[u].isAdmin
      && b.users[u].routeId == r && b.users[u].vehicleId == v
  }

  lemma SameTable<T>(before: map<int, T>, x: map<int, T>, y: map<int, T>, id: int)
    requires OthersKept(before, x, id) && OthersKept(before, y, id)
    requires (id in x <==> id in y) && (id in x ==> x[id] == y[id])
    ensures x == y
  {
    forall k ensures k in x <==> k in y {
      assert k != id ==> (k in x <==> k in before);
    }
    forall k | k in x ensures x[k] == y[k] {
      assert k != id ==> k in before;
    }
  }

  /** The description leaves one state only. */
  lemma DoesOneThing(a: Db, call: Call, b: Db, c: Db)
    requires Does(a, call, b) && Does(a, call, c)
    ensures b == c
  {
    hide OthersKept;
    match call
    case CreateRoute(_, _) => SameTable(a.routes, b.routes, c.routes, a.nextRoute);
    case UpdateRoute(r, _, _) => SameTable(a.routes, b.routes, c.routes, r);
    case DeleteRoute(r) => SameTable(a.routes, b.routes, c.routes, r);
    case CreateVehicle(_, _, _) => SameTable(a.vehicles, b.vehicles, c.vehicles, a.nextVehicle);
    case UpdateVehicle(v, _, _, _) => SameTable(a.vehicles, b.vehicles, c.vehicles, v);
    case DeleteVehicle(v) => SameTable(a.vehicles, b.vehicles, c.vehicles, v);
    case CreateUser(_, _) => SameTable(a.users, b.users, c.users, a.nextUser);
    case UpdateUser(u, _, _) => SameTable(a.users, b.users, c.users, u);
    case DeleteUser(u) => SameTable(a.users, b.users, c.users, u);
    case SetAssignment(u, _, _) => SameTable(a.users, b.users, c.users, u);
  }

  lemma RouteDoes(db: Db, call: Call)
    requires Sound(db) && Reply(db, call).Done? && (call.CreateRoute? || call.UpdateRoute? || call.DeleteRoute?)
    ensures Does(db, call, Apply(db, call))
  {
    assert db.nextRoute !in db.routes;
  }

  lemma VehicleDoes(db: Db, call: Call)
    requires Sound(db) && Reply(db, call).Done? && (call.CreateVehicle? || call.UpdateVehicle? || call.DeleteVehicle?)
    ensures Does(db, call, Apply(db, call))
  {
    assert db.nextVehicle !in db.vehicles;
  }

  lemma UserDoes(db: Db, call: Call)
    requires Sound(db) && Reply(db, call).Done?
    requires call.CreateUser? || call.UpdateUser? || call.DeleteUser? || call.SetAssignment?
    ensures Does(db, call, Apply(db, call))
  {
    assert db.nextUser !in db.users;
  }

  lemma AcceptedDoes(db: Db, call: Call)
    requires Sound(db) && Reply(db, call).Done?
    ensures Does(db, call, Apply(db, call))
  {
    hide Sound, Reply, Does, Apply;
    if call.CreateRoute? || call.UpdateRoute? || call.DeleteRoute? {
      RouteDoes(db, call);
    } else if call.CreateVehicle? || call.UpdateVehicle? || call.DeleteVehicle? {
      VehicleDoes(db, call);
    } else {
      UserDoes(db, call);
    }
  }

  /** An accepted call changes the named row, column by column as asked, and nothing else; a refused call
      changes nothing. */
  lemma EffectExactly(db: Db, call: Call, after: Db)
    requires Sound(db)
    ensures after == Apply(db, call) <==> if Reply(db, call).Done? then Does(db, call, after) else after == db
  {
    if Reply(db, call).Done? {
      AcceptedDoes(db, call);
      if Does(db, call, after) {
        DoesOneThing(db, call, after, Apply(db, call));
      }
    }
  }

  // ----- What a call answers -------------------------------------------------------------------

  /** A text of the given length. */
  predicate Sized(s: string, most: nat) {
    s != "" && |s| <= most
  }

  /** Letters, digits and hyphens only, by their ASCII codes. */
  predicate PlainCode(s: string) {
    Sized(s, 50) && forall i | 0 <= i < |s| ::
      var c := s[i] as int;
      65 <= c <= 90 || 97 <= c <= 122 || 48 <= c <= 57 || c == 45
  }

  predicate Polygonal(ws: seq<Waypoint>) {
    && |ws| >= 2 && |ws| <= 500
    && forall i | 0 <= i < |ws| :: -90.0 <= ws[i].lat <= 90.0 && -180.0 <= ws[i].lng <= 180.0
  }

  /** What the request schemas let through. */
  predicate SchemaAllows(call: Call) {
    match call
    case CreateRoute(name, ws) => Sized(name, 255) && Polygonal(ws)
    case UpdateRoute(_, name, ws) =>
      (name.Value? ==> Sized(name.value, 255)) && (ws.Value? ==> Polygonal(ws.value))
    case CreateVehicle(code, title, _) => PlainCode(code) && Sized(title, 255)
    case UpdateVehicle(_, code, title, _) =>
      (code.Value? ==> PlainCode(code.value)) && (title.Value? ==> Sized(title.value, 255))
    case SetAssignment(_, r, v) => r.None? == v.None?
    case _ => true
  }

  lemma PlainCodeExactly(s: string)
    ensures ValidCode(s) <==> PlainCode(s)
  {
    assert forall i | 0 <= i < |s| :: s[i] in s;
  }

  lemma PolygonalExactly(ws: seq<Waypoint>)
    ensures ValidWaypoints(ws) <==> Polygonal(ws)
  {
    assert forall i | 0 <= i < |ws| :: ws[i] in ws;
  }

  lemma SchemaExactly(call: Call)
    ensures BodyValid(call) <==> SchemaAllows(call)
  {
    match call
    case CreateRoute(_, ws) => PolygonalExactly(ws);
    case UpdateRoute(_, _, ws) =>
      if ws.Value? {
        PolygonalExactly(ws.value);
      }
    case CreateVehicle(code, _, _) => PlainCodeExactly(code);
    case UpdateVehicle(_, code, _, _) =>
      if code.Value? {
        PlainCodeExactly(code.value);
      }
    case _ =>
  }

  /** A row with this name exists, other than row `id`. */
  predicate OtherRouteNamed(db: Db, name: string, id: int) {
    exists r | r in db.routes :: r != id && db.routes[r].name == name
  }

  predicate OtherVehicleCoded(db: Db, code: string, id: int) {
    exists v | v in db.vehicles :: v != id && db.vehicles[v].code == code
  }

  predicate OtherUserWith(db: Db, email: string, id: int) {
    exists u | u in db.users :: u != id && db.users[u].email == email
  }

  /** Some other user has this route. */
  predicate RouteTakenFrom(db: Db, route: int, user: int) {
    exists u | u in db.users :: u != user && db.users[u].routeId == Some(route)
  }

  predicate VehicleTakenFrom(db: Db, vehicle: int, user: int) {
    exists u | u in db.users :: u != user && db.users[u].vehicleId == Some(vehicle)
  }

  // Why a call can be refused, each reason on its own.

  predicate UserMissing(db: Db, call: Call) {
    match call
    case UpdateUser(u, _, _) => u !in db.users
    case DeleteUser(u) => u !in db.users
    case SetAssignment(u, _, _) => u !in db.users
    case _ => false
  }

  predicate RouteMissing(db: Db, call: Call) {
    match call
    case UpdateRoute(r, _, _) => r !in db.routes
    case DeleteRoute(r) => r !in db.routes
    case SetAssignment(_, r, _) => r.Some? && r.value !in db.routes
    case _ => false
  }

  predicate VehicleMissing(db: Db, call: Call) {
    match call
    case UpdateVehicle(v, _, _, _) => v !in db.vehicles
    case DeleteVehicle(v) => v !in db.vehicles
    case SetAssignment(_, _, v) => v.Some? && v.value !in db.vehicles
    case _ => false
  }

  predicate Missing(db: Db, call: Call) {
    UserMissing(db, call) || RouteMissing(db, call) || VehicleMissing(db, call)
  }

  /** Ids begin at one, so no row has id 0. */
  predicate NameClash(db: Db, call: Call) {
    match call
    case CreateRoute(name, _) => OtherRouteNamed(db, name, 0)
    case UpdateRoute(r, name, _) => name.Value? && OtherRouteNamed(db, name.value, r)
    case _ => false
  }

  predicate CodeClash(db: Db, call: Call) {
    match call
    case CreateVehicle(code, _, _) => OtherVehicleCoded(db, code, 0)
    case UpdateVehicle(v, code, _, _) => code.Value? && OtherVehicleCoded(db, code.value, v)
    case _ => false
  }

  predicate EmailClash(db: Db, call: Call) {
    match call
    case CreateUser(email, _) => OtherUserWith(db, email, 0)
    case UpdateUser(u, email, _) => email.Value? && OtherUserWith(db, email.value, u)
    case _ => false
  }

  predicate RouteTaken(db: Db, call: Call) {
    call.SetAssignment? && call.routeId.Some? && RouteTakenFrom(db, call.routeId.value, call.user)
  }

  predicate VehicleTaken(db: Db, call: Call) {
    call.SetAssignment? && call.vehicleId.Some? && VehicleTakenFrom(db, call.vehicleId.value, call.user)
  }

  predicate RouteInUse(db: Db, call: Call) {
    call.DeleteRoute? && RouteTakenFrom(db, call.route, 0)
  }

  predicate VehicleInUse(db: Db, call: Call) {
    call.DeleteVehicle? && (VehicleTakenFrom(db, call.vehicle, 0) || call.vehicle in db.current)
  }

  lemma NoRowZero(db: Db)
    requires Sound(db)
    ensures 0 !in db.routes && 0 !in db.vehicles && 0 !in db.users
  {
  }

  /** The answers to a call the schema allows: the rows it names first, in the order user, route, vehicle,
      then clashes with other rows, then columns that cannot be null. */
  predicate Answers(db: Db, call: Call, reply: Outcome) {
    && (reply == NotFound("user_not_found") <==> UserMissing(db, call))
    && (reply == NotFound("route_not_found") <==> !UserMissing(db, call) && RouteMissing(db, call))
    && (reply == NotFound("vehicle_not_found") <==>
          !UserMissing(db, call) && !RouteMissing(db, call) && VehicleMissing(db, call))
    && (!Missing(db, call) ==>
          && (reply == Conflict("route_name_taken") <==> NameClash(db, call))
          && (reply == Conflict("vehicle_code_taken") <==> CodeClash(db, call))
          && (reply == Conflict("email_taken") <==> EmailClash(db, call))
          && (reply == Conflict("route_in_use") <==> RouteInUse(db, call))
          && (reply == Conflict("vehicle_in_use") <==> VehicleInUse(db, call))
          && (reply == Conflict("route_already_assigned") <==> RouteTaken(db, call))
          && (reply == Conflict("vehicle_already_assigned") <==> !RouteTaken(db, call) && VehicleTaken(db, call))
          && (reply == NullFault <==> NullsColumn(call) && !CodeClash(db, call))
          && (reply == Done <==>
                && !NullsColumn(call) && !NameClash(db, call) && !CodeClash(db, call) && !EmailClash(db, call)
                && !RouteInUse(db, call) && !VehicleInUse(db, call)
                && !RouteTaken(db, call) && !VehicleTaken(db, call)))
  }

  lemma RouteReplies(db: Db, call: Call)
    requires Sound(db) && SchemaAllows(call) && (call.CreateRoute? || call.UpdateRoute? || call.DeleteRoute?)
    ensures Answers(db, call, Reply(db, call))
  {
    SchemaExactly(call);
    NoRowZero(db);
    if call.DeleteRoute? {
      assert RouteHeld(db.users, call.route) <==> RouteTakenFrom(db, call.route, 0);
    }
  }

  lemma VehicleReplies(db: Db, call: Call)
    requires Sound(db) && SchemaAllows(call) && (call.CreateVehicle? || call.UpdateVehicle? || call.DeleteVehicle?)
    ensures Answers(db, call, Reply(db, call))
  {
    SchemaExactly(call);
    NoRowZero(db);
    if call.DeleteVehicle? {
      assert VehicleHeld(db.users, call.vehicle) <==> VehicleTakenFrom(db, call.vehicle, 0);
    }
  }

  lemma UserReplies(db: Db, call: Call)
    requires Sound(db) && SchemaAllows(call)
    requires call.CreateUser? || call.UpdateUser? || call.DeleteUser?
    ensures Answers(db, call, Reply(db, call))
  {
    SchemaExactly(call);
    NoRowZero(db);
  }

  lemma AssignmentReplies(db: Db, call: Call)
    requires SchemaAllows(call) && call.SetAssignment?
    ensures Answers(db, call, Reply(db, call))
  {
    SchemaExactly(call);
    if call.routeId.Some? {
      assert RouteHeldByOther(db.users, call.routeId.value, call.user) <==> RouteTaken(db, call);
      assert VehicleHeldByOther(db.users, call.vehicleId.value, call.user) <==> VehicleTaken(db, call);
    }
  }

  /** Which answer a call gets. */
  lemma RepliesExactly(db: Db, call: Call)
    requires Sound(db)
    ensures if SchemaAllows(call) then Answers(db, call, Reply(db, call)) else Reply(db, call) == Invalid
  {
    SchemaExactly(call);
    hide Answers, Sound;
    if SchemaAllows(call) {
      if call.CreateRoute? || call.UpdateRoute? || call.DeleteRoute? {
        RouteReplies(db, call);
      } else if call.CreateVehicle? || call.UpdateVehicle? || call.DeleteVehicle? {
        VehicleReplies(db, call);
      } else if call.SetAssignment? {
        AssignmentReplies(db, call);
      } else {
        UserReplies(db, call);
      }
    }
  }
}
