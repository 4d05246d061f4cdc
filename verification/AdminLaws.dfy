/** What the admin calls keep, and that their guards are exact. */
module AdminLaws {
  import opened Schema
  import opened FleetAdmin

  // ----- What an accepted call keeps -----------------------------------------------------------

  lemma KeepsIds(db: Db, call: Call)
    requires Sound(db)
    ensures IdsDrawn(Write(db, call))
  {
  }

  lemma KeepsKeysUnique(db: Db, call: Call)
    requires Sound(db) && Refusal(db, call).None?
    ensures KeysUnique(Write(db, call))
  {
    match call
    case CreateRoute(name, _) => assert db.nextRoute !in db.routes;
    case CreateVehicle(code, _, _) => assert db.nextVehicle !in db.vehicles;
    case CreateUser(email, _) => assert db.nextUser !in db.users;
    case _ =>
  }

  lemma KeepsReferences(db: Db, call: Call)
    requires Sound(db) && Refusal(db, call).None? && BodyValid(call)
    ensures References(Write(db, call))
  {
    match call
    case DeleteRoute(r) => RouteUnused(db, r);
    case DeleteVehicle(v) => VehicleUnused(db, v);
    case _ =>
  }

  lemma RouteUnused(db: Db, r: int)
    requires References(db) && !RouteHeld(db.users, r)
    ensures UsersRefer(db.users, db.routes - {r}, db.vehicles)
  {
    forall u | u in db.users ensures db.users[u].routeId != Some(r) {
      assert !HoldsRoute(db.users[u], r);
    }
  }

  lemma VehicleUnused(db: Db, v: int)
    requires References(db) && !VehicleHeld(db.users, v) && !HasHistory(db.points, v) && v !in db.current
    ensures UsersRefer(db.users, db.routes, db.vehicles - {v})
    ensures TrackingRefers(db.points, db.current, db.vehicles - {v})
  {
    forall u | u in db.users ensures db.users[u].vehicleId != Some(v) {
      assert !HoldsVehicle(db.users[u], v);
    }
  }

  lemma KeepsRoutesWalkable(db: Db, call: Call)
    requires Sound(db) && BodyValid(call)
    ensures RoutesWalkable(Write(db, call).routes)
  {
  }

  /** Every admin call, accepted or refused, keeps the database sound. */
  lemma AdminKeepsSound(db: Db, call: Call)
    requires Sound(db)
    ensures Sound(Apply(db, call))
  {
    if Reply(db, call).Done? {
      KeepsIds(db, call);
      KeepsKeysUnique(db, call);
      KeepsReferences(db, call);
      KeepsRoutesWalkable(db, call);
      assert Write(db, call).points == db.points && Write(db, call).current == db.current;
    }
  }

  /** Changing one row of a one-to-one relation keeps it one-to-one exactly when no other row
      holds a half of the new pair. */
  lemma OneToOneWith(users: map<int, User>, id: int, user: User)
    requires OneToOne(users) && PairComplete(user)
    ensures OneToOne(users[id := user]) <==>
              && (user.routeId.Some? ==> !RouteHeldByOther(users, user.routeId.value, id))
              && (user.vehicleId.Some? ==> !VehicleHeldByOther(users, user.vehicleId.value, id))
  {
    var after := users[id := user];
    assert after[id] == user;
    assert forall u | u in users && u != id :: u in after && after[u] == users[u];
    assert forall u | u in users :: user.routeId.Some? && users[u].routeId == user.routeId
                                    ==> HoldsRoute(users[u], user.routeId.value);
    assert forall u | u in users :: user.vehicleId.Some? && users[u].vehicleId == user.vehicleId
                                    ==> HoldsVehicle(users[u], user.vehicleId.value);
  }

  /** A row that keeps its pair cannot clash. */
  lemma SamePairKeeps(users: map<int, User>, id: int, user: User)
    requires OneToOne(users) && id in users
    requires user.routeId == users[id].routeId && user.vehicleId == users[id].vehicleId
    ensures OneToOne(users[id := user])
  {
  }

  /** Assignment stays a partial one-to-one relation under every admin call. */
  lemma AdminKeepsOneToOne(db: Db, call: Call)
    requires Sound(db) && OneToOne(db.users)
    ensures OneToOne(Apply(db, call).users)
  {
    if Reply(db, call).Done? {
      match call
      case CreateUser(email, admin) => OneToOneWith(db.users, db.nextUser, User(email, admin, None, None));
      case UpdateUser(u, _, _) => SamePairKeeps(db.users, u, Write(db, call).users[u]);
      case SetAssignment(u, r, v) => OneToOneWith(db.users, u, Write(db, call).users[u]);
      case _ =>
    }
  }

  // ----- The guards are exact ------------------------------------------------------------------

  ghost predicate Proper(db: Db) {
    Sound(db) && OneToOne(db.users)
  }

  predicate TargetExists(db: Db, call: Call) {
    match call
    case UpdateRoute(r, _, _) => r in db.routes
    case DeleteRoute(r) => r in db.routes
    case UpdateVehicle(v, _, _, _) => v in db.vehicles
    case DeleteVehicle(v) => v in db.vehicles
    case UpdateUser(u, _, _) => u in db.users
    case DeleteUser(u) => u in db.users
    case SetAssignment(u, _, _) => u in db.users
    case _ => true
  }

  /** An explicit null for a column that cannot hold it. */
  predicate NullsColumn(call: Call) {
    match call
    case UpdateRoute(_, name, _) => name.Null?
    case UpdateVehicle(_, code, title, active) => code.Null? || title.Null? || active.Null?
    case UpdateUser(_, email, _) => email.Null?
    case _ => false
  }

  lemma NameStaysFree(routes: map<int, Route>, id: int, route: Route)
    requires NamesUnique(routes[id := route])
    ensures forall r | r in routes && r != id :: routes[r].name != route.name
  {
    var after := routes[id := route];
    forall r | r in routes && r != id ensures routes[r].name != route.name {
      assert after[r] == routes[r] && after[id] == route;
    }
  }

  lemma CodeStaysFree(vehicles: map<int, Vehicle>, id: int, vehicle: Vehicle)
    requires CodesUnique(vehicles[id := vehicle])
    ensures forall v | v in vehicles && v != id :: vehicles[v].code != vehicle.code
  {
    var after := vehicles[id := vehicle];
    forall v | v in vehicles && v != id ensures vehicles[v].code != vehicle.code {
      assert after[v] == vehicles[v] && after[id] == vehicle;
    }
  }

  lemma EmailStaysFree(users: map<int, User>, id: int, user: User)
    requires EmailsUnique(users[id := user])
    ensures forall u | u in users && u != id :: users[u].email != user.email
  {
    var after := users[id := user];
    forall u | u in users && u != id ensures users[u].email != user.email {
      assert after[u] == users[u] && after[id] == user;
    }
  }

  lemma RouteGuards(db: Db, call: Call)
    requires Proper(db) && Proper(Write(db, call)) && BodyValid(call)
    requires TargetExists(db, call) && !NullsColumn(call)
    requires call.CreateRoute? || call.UpdateRoute? || call.DeleteRoute?
    ensures Refusal(db, call).None?
  {
    var after := Write(db, call);
    match call
    case CreateRoute(_, _) => NameStaysFree(db.routes, db.nextRoute, after.routes[db.nextRoute]);
    case UpdateRoute(id, _, _) => NameStaysFree(db.routes, id, after.routes[id]);
    case DeleteRoute(id) =>
  }

  lemma VehicleGuards(db: Db, call: Call)
    requires Proper(db) && Proper(Write(db, call)) && BodyValid(call)
    requires TargetExists(db, call) && !NullsColumn(call)
    requires call.CreateVehicle? || call.UpdateVehicle? || call.DeleteVehicle?
    ensures Refusal(db, call).None?
  {
    var after := Write(db, call);
    match call
    case CreateVehicle(_, _, _) => CodeStaysFree(db.vehicles, db.nextVehicle, after.vehicles[db.nextVehicle]);
    case UpdateVehicle(id, _, _, _) => CodeStaysFree(db.vehicles, id, after.vehicles[id]);
    case DeleteVehicle(id) =>
  }

  lemma UserGuards(db: Db, call: Call)
    requires Proper(db) && Proper(Write(db, call)) && BodyValid(call)
    requires TargetExists(db, call) && !NullsColumn(call)
    requires call.CreateUser? || call.UpdateUser? || call.DeleteUser? || call.SetAssignment?
    ensures Refusal(db, call).None?
  {
    var after := Write(db, call);
    match call
    case CreateUser(_, _) => EmailStaysFree(db.users, db.nextUser, after.users[db.nextUser]);
    case UpdateUser(id, _, _) => EmailStaysFree(db.users, id, after.users[id]);
    case DeleteUser(_) =>
    case SetAssignment(id, _, _) =>
      OneToOneWith(db.users, id, after.users[id]);
      assert id in after.users;
  }

  /** A call is accepted exactly when its body is valid, its target exists, it nulls no column,
      and its bare write would leave a proper database: no check is too weak or too strong. */
  lemma GuardsExact(db: Db, call: Call)
    requires Proper(db)
    ensures Reply(db, call).Done? <==>
              BodyValid(call) && TargetExists(db, call) && !NullsColumn(call) && Proper(Write(db, call))
  {
    if Reply(db, call).Done? {
      AdminKeepsSound(db, call);
      AdminKeepsOneToOne(db, call);
    }
    if BodyValid(call) && TargetExists(db, call) && !NullsColumn(call) && Proper(Write(db, call)) {
      if call.CreateRoute? || call.UpdateRoute? || call.DeleteRoute? {
        RouteGuards(db, call);
      } else if call.CreateVehicle? || call.UpdateVehicle? || call.DeleteVehicle? {
        VehicleGuards(db, call);
      } else {
        UserGuards(db, call);
      }
    }
  }

  // ----- Serial runs ---------------------------------------------------------------------------

  function ApplyAll(db: Db, calls: seq<Call>): Db {
    if calls == [] then db else Apply(ApplyAll(db, calls[..|calls| - 1]), calls[|calls| - 1])
  }

  /** In every serial run of admin calls the database stays sound and the assignments one-to-one. */
  lemma {:induction false} AdminRunKeeps(db: Db, calls: seq<Call>)
    requires Proper(db)
    ensures Proper(ApplyAll(db, calls))
  {
    if calls != [] {
      var before, call := ApplyAll(db, calls[..|calls| - 1]), calls[|calls| - 1];
      AdminRunKeeps(db, calls[..|calls| - 1]);
      AdminKeepsSound(before, call);
      AdminKeepsOneToOne(before, call);
    }
  }

  lemma EmptyIsProper()
    ensures Proper(EMPTY_DB)
  {
    assert forall v :: !HasHistory([], v);
  }

  // ----- Pairs are freed, and calls undone -----------------------------------------------------

  /** The call ends the hold of `user` on the route. */
  predicate ReleasesRoute(call: Call, user: int, route: int) {
    call == DeleteUser(user) || (call.SetAssignment? && call.user == user && call.routeId != Some(route))
  }

  predicate ReleasesVehicle(call: Call, user: int, vehicle: int) {
    call == DeleteUser(user) || (call.SetAssignment? && call.user == user && call.vehicleId != Some(vehicle))
  }

  /** A held route is free after an accepted call exactly when the call was the deletion of its holder
      or gave the holder another route or none. */
  lemma RouteFreedExactly(db: Db, call: Call, user: int, route: int)
    requires Proper(db) && Reply(db, call).Done? && user in db.users && HoldsRoute(db.users[user], route)
    ensures !RouteHeld(Apply(db, call).users, route) <==> ReleasesRoute(call, user, route)
  {
    var after := Apply(db, call);
    if ReleasesRoute(call, user, route) {
      forall u | u in after.users ensures !HoldsRoute(after.users[u], route) {
        assert u != user ==> after.users[u] == db.users[u];
      }
    } else {
      assert db.nextUser !in db.users;
      assert user in after.users && HoldsRoute(after.users[user], route);
    }
  }

  /** And likewise a held vehicle. */
  lemma VehicleFreedExactly(db: Db, call: Call, user: int, vehicle: int)
    requires Proper(db) && Reply(db, call).Done? && user in db.users && HoldsVehicle(db.users[user], vehicle)
    ensures !VehicleHeld(Apply(db, call).users, vehicle) <==> ReleasesVehicle(call, user, vehicle)
  {
    var after := Apply(db, call);
    if ReleasesVehicle(call, user, vehicle) {
      forall u | u in after.users ensures !HoldsVehicle(after.users[u], vehicle) {
        assert u != user ==> after.users[u] == db.users[u];
      }
    } else {
      assert db.nextUser !in db.users;
      assert user in after.users && HoldsVehicle(after.users[user], vehicle);
    }
  }

  /** Reassignment, unassignment and deletion free the old pair: any user can have it at once. */
  lemma PairFreed(db: Db, call: Call, user: int, route: int, vehicle: int, other: int)
    requires Proper(db) && Reply(db, call).Done?
    requires user in db.users && HoldsRoute(db.users[user], route) && HoldsVehicle(db.users[user], vehicle)
    requires ReleasesRoute(call, user, route) && ReleasesVehicle(call, user, vehicle)
    requires other in Apply(db, call).users
    ensures Reply(Apply(db, call), SetAssignment(other, Some(route), Some(vehicle))).Done?
  {
    RouteFreedExactly(db, call, user, route);
    VehicleFreedExactly(db, call, user, vehicle);
  }

  /** Giving a user back the pair it had restores the database, whatever it held in between. */
  lemma ReassignmentUndone(db: Db, user: int, route: Option<int>, vehicle: Option<int>)
    requires Proper(db) && user in db.users
    requires Reply(db, SetAssignment(user, route, vehicle)).Done?
    ensures var mid := Apply(db, SetAssignment(user, route, vehicle));
            var back := SetAssignment(user, db.users[user].routeId, db.users[user].vehicleId);
            Reply(mid, back).Done? && Apply(mid, back) == db
  {
    var mid := Apply(db, SetAssignment(user, route, vehicle));
    var before := db.users[user];
    var back := SetAssignment(user, before.routeId, before.vehicleId);
    assert mid.users[user := before] == db.users;
    forall u | u in mid.users && u != user ensures mid.users[u] == db.users[u] {
    }
    assert before.routeId.Some? ==> !RouteHeldByOther(mid.users, before.routeId.value, user);
    assert before.vehicleId.Some? ==> !VehicleHeldByOther(mid.users, before.vehicleId.value, user);
    assert Write(mid, back) == db;
  }
}
