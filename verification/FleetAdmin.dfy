/** The admin API as atomic calls on the database (app/services/fleet_admin_service.py). */
module FleetAdmin {
  import opened Schema

  /** A field of a partial update: left out, explicitly null, or given. */
  datatype Change<T> = Unset | Null | Value(value: T)

  datatype Call =
    | CreateRoute(name: string, waypoints: seq<Waypoint>)
    | UpdateRoute(route: int, newName: Change<string>, newWaypoints: Change<seq<Waypoint>>)
    | DeleteRoute(route: int)
    | CreateVehicle(code: string, title: string, isActive: bool)
    | UpdateVehicle(vehicle: int, newCode: Change<string>, newTitle: Change<string>, newActive: Change<bool>)
    | DeleteVehicle(vehicle: int)
    | CreateUser(email: string, isAdmin: bool)
    | UpdateUser(user: int, newEmail: Change<string>, newAdmin: Change<bool>)
    | DeleteUser(user: int)
    | SetAssignment(user: int, routeId: Option<int>, vehicleId: Option<int>)

  /** `Invalid` is the request validator's refusal, `NullFault` the NOT NULL violation at commit. */
  datatype Outcome = Done | Invalid | NotFound(missing: string) | Conflict(code: string) | NullFault

  // ----- Validation ----------------------------------------------------------------------------

  predicate ValidName(s: string) {
    1 <= |s| <= 255
  }

  predicate CodeChar(c: char) {
    'A' <= c <= 'Z' || 'a' <= c <= 'z' || '0' <= c <= '9' || c == '-'
  }

  predicate ValidCode(s: string) {
    1 <= |s| <= 50 && forall c | c in s :: CodeChar(c)
  }

  predicate BodyValid(call: Call) {
    match call
    case CreateRoute(name, ws) => ValidName(name) && ValidWaypoints(ws)
    case UpdateRoute(_, name, ws) =>
      (name.Value? ==> ValidName(name.value)) && (ws.Value? ==> ValidWaypoints(ws.value))
    case CreateVehicle(code, title, _) => ValidCode(code) && ValidName(title)
    case UpdateVehicle(_, code, title, _) =>
      (code.Value? ==> ValidCode(code.value)) && (title.Value? ==> ValidName(title.value))
    case SetAssignment(_, r, v) => r.Some? <==> v.Some?
    case _ => true
  }

  // ----- What the calls look for ---------------------------------------------------------------

  predicate NameTaken(routes: map<int, Route>, name: string) {
    exists r | r in routes :: routes[r].name == name
  }

  predicate CodeTaken(vehicles: map<int, Vehicle>, code: string) {
    exists v | v in vehicles :: vehicles[v].code == code
  }

  predicate EmailTaken(users: map<int, User>, email: string) {
    exists u | u in users :: users[u].email == email
  }

  predicate RouteHeldByOther(users: map<int, User>, route: int, user: int) {
    exists u | u in users :: u != user && HoldsRoute(users[u], route)
  }

  predicate VehicleHeldByOther(users: map<int, User>, vehicle: int, user: int) {
    exists u | u in users :: u != user && HoldsVehicle(users[u], vehicle)
  }

  /** Why a valid call is refused, the first reason first. */
  function Refusal(db: Db, call: Call): Option<Outcome> {
    match call
    case CreateRoute(name, _) =>
      if NameTaken(db.routes, name) then Some(Conflict("route_name_taken")) else None
    case UpdateRoute(r, name, _) =>
      if r !in db.routes then Some(NotFound("route_not_found"))
      else if name.Value? && name.value != db.routes[r].name && NameTaken(db.routes, name.value)
      then Some(Conflict("route_name_taken"))
      else if name.Null? then Some(NullFault) else None
    case DeleteRoute(r) =>
      if r !in db.routes then Some(NotFound("route_not_found"))
      else if RouteHeld(db.users, r) then Some(Conflict("route_in_use")) else None
    case CreateVehicle(code, _, _) =>
      if CodeTaken(db.vehicles, code) then Some(Conflict("vehicle_code_taken")) else None
    case UpdateVehicle(v, code, title, active) =>
      if v !in db.vehicles then Some(NotFound("vehicle_not_found"))
      else if code.Value? && code.value != db.vehicles[v].code && CodeTaken(db.vehicles, code.value)
      then Some(Conflict("vehicle_code_taken"))
      else if code.Null? || title.Null? || active.Null? then Some(NullFault) else None
    case DeleteVehicle(v) =>
      if v !in db.vehicles then Some(NotFound("vehicle_not_found"))
      else if VehicleHeld(db.users, v) then Some(Conflict("vehicle_in_use"))
      else if HasHistory(db.points, v) || v in db.current then Some(Conflict("vehicle_in_use")) else None
    case CreateUser(email, _) =>
      if EmailTaken(db.users, email) then Some(Conflict("email_taken")) else None
    case UpdateUser(u, email, _) =>
      if u !in db.users then Some(NotFound("user_not_found"))
      else if email.Value? && email.value != db.users[u].email && EmailTaken(db.users, email.value)
      then Some(Conflict("email_taken"))
      else if email.Null? then Some(NullFault) else None
    case DeleteUser(u) =>
      if u !in db.users then Some(NotFound("user_not_found")) else None
    case SetAssignment(u, r, v) =>
      if u !in db.users then Some(NotFound("user_not_found"))
      else if r.None? || v.None? then None
      else if r.value !in db.routes then Some(NotFound("route_not_found"))
      else if v.value !in db.vehicles then Some(NotFound("vehicle_not_found"))
      else if RouteHeldByOther(db.users, r.value, u) then Some(Conflict("route_already_assigned"))
      else if VehicleHeldByOther(db.users, v.value, u) then Some(Conflict("vehicle_already_assigned"))
      else None
  }

  function Patched<T>(column: T, change: Change<T>): T {
    if change.Value? then change.value else column
  }

  /** The bare write of a call, with none of its checks. */
  function Write(db: Db, call: Call): Db {
    match call
    case CreateRoute(name, ws) =>
      db.(routes := db.routes[db.nextRoute := Route(name, ws)], nextRoute := db.nextRoute + 1)
    case UpdateRoute(r, name, ws) =>
      if r !in db.routes then db
      else db.(routes := db.routes[r := Route(Patched(db.routes[r].name, name), Patched(db.routes[r].waypoints, ws))])
    case DeleteRoute(r) => db.(routes := db.routes - {r})
    case CreateVehicle(code, title, active) =>
      db.(vehicles := db.vehicles[db.nextVehicle := Vehicle(code, title, active)], nextVehicle := db.nextVehicle + 1)
    case UpdateVehicle(v, code, title, active) =>
      if v !in db.vehicles then db
      else db.(vehicles := db.vehicles[v :=
                 Vehicle(Patched(db.vehicles[v].code, code), Patched(db.vehicles[v].name, title),
                         Patched(db.vehicles[v].isActive, active))])
    case DeleteVehicle(v) => db.(vehicles := db.vehicles - {v})
    case CreateUser(email, admin) =>
      db.(users := db.users[db.nextUser := User(email, admin, None, None)], nextUser := db.nextUser + 1)
    case UpdateUser(u, email, admin) =>
      if u !in db.users then db
      else db.(users := db.users[u :=
                 db.users[u].(email := Patched(db.users[u].email, email),
                              isAdmin := Patched(db.users[u].isAdmin, admin))])
    case DeleteUser(u) => db.(users := db.users - {u})
    case SetAssignment(u, r, v) =>
      if u !in db.users then db
      else db.(users := db.users[u := db.users[u].(routeId := r, vehicleId := v)])
  }

  function Reply(db: Db, call: Call): Outcome {
    if !BodyValid(call) then Invalid else match Refusal(db, call) case Some(o) => o case None => Done
  }

  /** A call either writes, or changes nothing. */
  function Apply(db: Db, call: Call): Db {
    if Reply(db, call).Done? then Write(db, call) else db
  }

  // ----- The services --------------------------------------------------------------------------

  /** One served call: the reply and the new state are those of the specification. */
  twostate predicate Serves(db: Session, call: Call, outcome: Outcome)
    reads db
  {
    outcome == Reply(old(db.State()), call) && db.State() == Apply(old(db.State()), call)
  }

  method AddRoute(db: Session, name: string, waypoints: seq<Waypoint>) returns (outcome: Outcome)
    requires BodyValid(CreateRoute(name, waypoints))
    modifies db
    ensures Serves(db, CreateRoute(name, waypoints), outcome)
  {
    if exists r | r in db.routes :: db.routes[r].name == name {
      return Conflict("route_name_taken");
    }
    db.routes := db.routes[db.nextRoute := Route(name, waypoints)];
    db.nextRoute := db.nextRoute + 1;
    return Done;
  }

  method PatchRoute(db: Session, id: int, name: Change<string>, waypoints: Change<seq<Waypoint>>)
    returns (outcome: Outcome)
    requires BodyValid(UpdateRoute(id, name, waypoints))
    modifies db
    ensures Serves(db, UpdateRoute(id, name, waypoints), outcome)
  {
    if id !in db.routes {
      return NotFound("route_not_found");
    }
    var route := db.routes[id];
    if name.Value? && name.value != route.name {
      if exists r | r in db.routes :: db.routes[r].name == name.value {
        return Conflict("route_name_taken");
      }
      route := route.(name := name.value);
    }
    if waypoints.Value? {
      route := route.(waypoints := waypoints.value);
    }
    if name.Null? {
      return NullFault;
    }
    db.routes := db.routes[id := route];
    return Done;
  }

  method RemoveRoute(db: Session, id: int) returns (outcome: Outcome)
    modifies db
    ensures Serves(db, DeleteRoute(id), outcome)
  {
    if id !in db.routes {
      return NotFound("route_not_found");
    }
    if exists u | u in db.users :: HoldsRoute(db.users[u], id) {
      return Conflict("route_in_use");
    }
    db.routes := db.routes - {id};
    return Done;
  }

  method AddVehicle(db: Session, code: string, title: string, isActive: bool) returns (outcome: Outcome)
    requires BodyValid(CreateVehicle(code, title, isActive))
    modifies db
    ensures Serves(db, CreateVehicle(code, title, isActive), outcome)
  {
    if exists v | v in db.vehicles :: db.vehicles[v].code == code {
      return Conflict("vehicle_code_taken");
    }
    db.vehicles := db.vehicles[db.nextVehicle := Vehicle(code, title, isActive)];
    db.nextVehicle := db.nextVehicle + 1;
    return Done;
  }

  method PatchVehicle(db: Session, id: int, code: Change<string>, title: Change<string>, active: Change<bool>)
    returns (outcome: Outcome)
    requires BodyValid(UpdateVehicle(id, code, title, active))
    modifies db
    ensures Serves(db, UpdateVehicle(id, code, title, active), outcome)
  {
    if id !in db.vehicles {
      return NotFound("vehicle_not_found");
    }
    var vehicle := db.vehicles[id];
    if code.Value? && code.value != vehicle.code {
      if exists v | v in db.vehicles :: db.vehicles[v].code == code.value {
        return Conflict("vehicle_code_taken");
      }
      vehicle := vehicle.(code := code.value);
    }
    if title.Value? {
      vehicle := vehicle.(name := title.value);
    }
    if active.Value? {
      vehicle := vehicle.(isActive := active.value);
    }
    if code.Null? || title.Null? || active.Null? {
      return NullFault;
    }
    db.vehicles := db.vehicles[id := vehicle];
    return Done;
  }

  method RemoveVehicle(db: Session, id: int) returns (outcome: Outcome)
    modifies db
    ensures Serves(db, DeleteVehicle(id), outcome)
  {
    if id !in db.vehicles {
      return NotFound("vehicle_not_found");
    }
    if exists u | u in db.users :: HoldsVehicle(db.users[u], id) {
      return Conflict("vehicle_in_use");
    }
    var hasHistory := exists i | 0 <= i < |db.points| :: db.points[i].vehicleId == id;
    var hasCurrent := id in db.current;
    if hasHistory || hasCurrent {
      return Conflict("vehicle_in_use");
    }
    db.vehicles := db.vehicles - {id};
    return Done;
  }

  method AddUser(db: Session, email: string, isAdmin: bool) returns (outcome: Outcome)
    modifies db
    ensures Serves(db, CreateUser(email, isAdmin), outcome)
  {
    if exists u | u in db.users :: db.users[u].email == email {
      return Conflict("email_taken");
    }
    db.users := db.users[db.nextUser := User(email, isAdmin, None, None)];
    db.nextUser := db.nextUser + 1;
    return Done;
  }

  method PatchUser(db: Session, id: int, email: Change<string>, admin: Change<bool>) returns (outcome: Outcome)
    modifies db
    ensures Serves(db, UpdateUser(id, email, admin), outcome)
  {
    if id !in db.users {
      return NotFound("user_not_found");
    }
    var user := db.users[id];
    if email.Value? && email.value != user.email {
      if exists u | u in db.users :: db.users[u].email == email.value {
        return Conflict("email_taken");
      }
      user := user.(email := email.value);
    }
    if admin.Value? {
      user := user.(isAdmin := admin.value);
    }
    if email.Null? {
      return NullFault;
    }
    db.users := db.users[id := user];
    return Done;
  }

  method RemoveUser(db: Session, id: int) returns (outcome: Outcome)
    modifies db
    ensures Serves(db, DeleteUser(id), outcome)
  {
    if id !in db.users {
      return NotFound("user_not_found");
    }
    db.users := db.users - {id};
    return Done;
  }

  method Assign(db: Session, id: int, routeId: Option<int>, vehicleId: Option<int>) returns (outcome: Outcome)
    requires BodyValid(SetAssignment(id, routeId, vehicleId))
    modifies db
    ensures Serves(db, SetAssignment(id, routeId, vehicleId), outcome)
  {
    if id !in db.users {
      return NotFound("user_not_found");
    }
    var user := db.users[id];
    if routeId.None? && vehicleId.None? {
      db.users := db.users[id := user.(routeId := None, vehicleId := None)];
      return Done;
    }
    if routeId.value !in db.routes {
      return NotFound("route_not_found");
    }
    if vehicleId.value !in db.vehicles {
      return NotFound("vehicle_not_found");
    }
    if exists u | u in db.users :: db.users[u].routeId == routeId && u != id {
      assert RouteHeldByOther(db.users, routeId.value, id);
      return Conflict("route_already_assigned");
    }
    assert !RouteHeldByOther(db.users, routeId.value, id);
    if exists u | u in db.users :: db.users[u].vehicleId == vehicleId && u != id {
      assert VehicleHeldByOther(db.users, vehicleId.value, id);
      return Conflict("vehicle_already_assigned");
    }
    assert !VehicleHeldByOther(db.users, vehicleId.value, id);
    db.users := db.users[id := user.(routeId := routeId, vehicleId := vehicleId)];
    return Done;
  }

  /** The routers: validate the body, then serve the call. */
  method Serve(db: Session, call: Call) returns (outcome: Outcome)
    modifies db
    ensures Serves(db, call, outcome)
  {
    if !BodyValid(call) {
      return Invalid;
    }
    match call {
      case CreateRoute(name, ws) => outcome := AddRoute(db, name, ws);
      case UpdateRoute(id, name, ws) => outcome := PatchRoute(db, id, name, ws);
      case DeleteRoute(id) => outcome := RemoveRoute(db, id);
      case CreateVehicle(code, title, active) => outcome := AddVehicle(db, code, title, active);
      case UpdateVehicle(id, code, title, active) => outcome := PatchVehicle(db, id, code, title, active);
      case DeleteVehicle(id) => outcome := RemoveVehicle(db, id);
      case CreateUser(email, admin) => outcome := AddUser(db, email, admin);
      case UpdateUser(id, email, admin) => outcome := PatchUser(db, id, email, admin);
      case DeleteUser(id) => outcome := RemoveUser(db, id);
      case SetAssignment(id, r, v) => outcome := Assign(db, id, r, v);
    }
  }
}
