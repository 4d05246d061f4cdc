/** The reads of the API (app/services/tracking_service.py, and the fleet view of
    app/services/fleet_admin_service.py). Instants are UTC microseconds. */
module Tracking {
  import opened Schema

  datatype Status = Moving | Idle | Offline

  const STALE_AFTER := 60_000_000
  const MOVING_THRESHOLD := 500  // 5.00 km/h
  const DEFAULT_HISTORY_WINDOW := 24 * 3600 * 1_000_000

  datatype Answer<T> = Ok(value: T) | NoAssignment

  // ----- Live status ---------------------------------------------------------------------------

  function DeriveStatus(recordedAt: Option<int>, speed: Option<int>, now: int): Status {
    if recordedAt.None? then Offline
    else if now - recordedAt.value > STALE_AFTER then Offline
    else
      var speedValue := if speed.Some? then speed.value else 0;
      if speedValue > MOVING_THRESHOLD then Moving else Idle
  }

  datatype VehicleLive = VehicleLive(
    vehicleId: int, code: string,
    lat: Option<int>, lng: Option<int>, speed: Option<int>, recordedAt: Option<int>,
    status: Status)

  datatype AdminVehicle = AdminVehicle(
    id: int, code: string, name: string, isActive: bool, live: Option<VehicleLive>)

  /** One row of the fleet view. */
  function AdminVehicleOut(db: Db, v: int, now: int): AdminVehicle
    requires v in db.vehicles
  {
    var vehicle := db.vehicles[v];
    var live :=
      if v !in db.current then None
      else
        var loc := db.current[v];
        Some(VehicleLive(v, vehicle.code, Some(loc.lat), Some(loc.lng), Some(loc.speed), Some(loc.recordedAt),
                         DeriveStatus(Some(loc.recordedAt), Some(loc.speed), now)));
    AdminVehicle(v, vehicle.code, vehicle.name, vehicle.isActive, live)
  }

  // ----- The caller's own reads ----------------------------------------------------------------

  datatype RouteSummary = RouteSummary(id: int, name: string)

  datatype VehicleSummary = VehicleSummary(id: int, code: string, name: string)

  datatype Assignment = Assignment(route: Option<RouteSummary>, vehicle: Option<VehicleSummary>)

  datatype Polyline = Polyline(id: int, name: string, waypoints: seq<Waypoint>)

  /** `if user.route_id`: an id of zero counts as absent. */
  predicate Truthy(id: Option<int>) {
    id.Some? && id.value != 0
  }

  function GetAssignment(db: Db, user: User): Answer<Assignment> {
    if user.routeId.None? && user.vehicleId.None? then NoAssignment
    else
      var route := if Truthy(user.routeId) then Lookup(db.routes, user.routeId.value) else None;
      var vehicle := if Truthy(user.vehicleId) then Lookup(db.vehicles, user.vehicleId.value) else None;
      Ok(Assignment(
           if route.Some? then Some(RouteSummary(user.routeId.value, route.value.name)) else None,
           if vehicle.Some? then Some(VehicleSummary(user.vehicleId.value, vehicle.value.code, vehicle.value.name))
           else None))
  }

  function GetRoutePolyline(db: Db, user: User): Answer<Polyline> {
    if user.routeId.None? then NoAssignment
    else
      match Lookup(db.routes, user.routeId.value)
      case None => NoAssignment
      case Some(route) => Ok(Polyline(user.routeId.value, route.name, route.waypoints))
  }

  function GetCurrentLocation(db: Db, user: User, now: int): Answer<VehicleLive> {
    if user.vehicleId.None? then NoAssignment
    else
      var v := user.vehicleId.value;
      match Lookup(db.vehicles, v)
      case None => NoAssignment
      case Some(vehicle) =>
        match Lookup(db.current, v)
        case None => Ok(VehicleLive(v, vehicle.code, None, None, None, None, DeriveStatus(None, None, now)))
        case Some(loc) =>
          Ok(VehicleLive(v, vehicle.code, Some(loc.lat), Some(loc.lng), Some(loc.speed), Some(loc.recordedAt),
                         DeriveStatus(Some(loc.recordedAt), Some(loc.speed), now)))
  }

  // ----- History -------------------------------------------------------------------------------

  datatype HistoryParams = HistoryParams(dateFrom: Option<int>, dateTo: Option<int>, limit: int, offset: int) {
    predicate Valid() {
      1 <= limit <= 1000 && 0 <= offset
    }
  }

  datatype History = History(vehicleId: int, count: nat, points: seq<Fix>)

  /** WHERE vehicle_id = v. */
  function PointsOf(points: seq<GpsPoint>, v: int): seq<GpsPoint> {
    if points == [] then []
    else
      var p := points[|points| - 1];
      PointsOf(points[..|points| - 1], v) + if p.vehicleId == v then [p] else []
  }

  /** AND recorded_at BETWEEN from AND to. */
  function Within(points: seq<GpsPoint>, since: int, to: int): seq<GpsPoint> {
    if points == [] then []
    else
      var p := points[|points| - 1];
      Within(points[..|points| - 1], since, to) + if since <= p.fix.recordedAt <= to then [p] else []
  }

  predicate Before(p: GpsPoint, q: GpsPoint) {
    p.fix.recordedAt < q.fix.recordedAt || (p.fix.recordedAt == q.fix.recordedAt && p.id < q.id)
  }

  function Insert(p: GpsPoint, rows: seq<GpsPoint>): seq<GpsPoint> {
    if rows == [] || Before(rows[|rows| - 1], p) then rows + [p]
    else Insert(p, rows[..|rows| - 1]) + [rows[|rows| - 1]]
  }

  /** ORDER BY recorded_at, id. */
  function Ordered(points: seq<GpsPoint>): seq<GpsPoint> {
    if points == [] then [] else Insert(points[|points| - 1], Ordered(points[..|points| - 1]))
  }

  function Matching(points: seq<GpsPoint>, v: int, since: int, to: int): seq<GpsPoint> {
    Within(PointsOf(points, v), since, to)
  }

  function Rows(points: seq<GpsPoint>, v: int, since: int, to: int): seq<GpsPoint> {
    Ordered(Matching(points, v, since, to))
  }

  function Min(a: nat, b: nat): nat {
    if a <= b then a else b
  }

  /** LIMIT and OFFSET. */
  function Page(rows: seq<GpsPoint>, limit: nat, offset: nat): seq<GpsPoint> {
    rows[Min(offset, |rows|)..Min(offset + limit, |rows|)]
  }

  function Fixes(rows: seq<GpsPoint>): seq<Fix> {
    seq(|rows|, i requires 0 <= i < |rows| => rows[i].fix)
  }

  function GetHistory(db: Db, user: User, params: HistoryParams, now: int): Answer<History>
    requires params.Valid()
  {
    if user.vehicleId.None? then NoAssignment
    else
      var v := user.vehicleId.value;
      var dateTo := if params.dateTo.Some? then params.dateTo.value else now;
      var dateFrom := if params.dateFrom.Some? then params.dateFrom.value else dateTo - DEFAULT_HISTORY_WINDOW;
      var total := |Matching(db.points, v, dateFrom, dateTo)|;
      Ok(History(v, total, Fixes(Page(Rows(db.points, v, dateFrom, dateTo), params.limit, params.offset))))
  }

  // ----- Status over the whole history ---------------------------------------------------------

  /** Offline without a fix, or with one older than sixty seconds; else moving above five km/h, and idle at
      up to five or with no speed known. */
  lemma StatusExactly(recordedAt: Option<int>, speed: Option<int>, now: int)
    ensures var status := DeriveStatus(recordedAt, speed, now);
            && (status == Offline <==> recordedAt == None || recordedAt.value < now - 60_000_000)
            && (status == Moving <==> status != Offline && speed != None && speed.value > 500)
  {
  }

  /** A stored fix no older than the staleness limit. */
  predicate HeardFrom(points: seq<GpsPoint>, v: int, now: int) {
    exists i | 0 <= i < |points| :: points[i].vehicleId == v && points[i].fix.recordedAt >= now - 60_000_000
  }

  /** The status read from the one current row is that of the whole history: offline exactly when
      no fix was stored in the last sixty seconds, else decided by the winning fix. */
  lemma StatusIsOfHistory(db: Db, user: User, v: int, now: int)
    requires Sound(db) && user.vehicleId == Some(v) && v in db.vehicles
    ensures GetCurrentLocation(db, user, now).Ok?
    ensures var live := GetCurrentLocation(db, user, now).value;
            && live.vehicleId == v && live.code == db.vehicles[v].code
            && (live.status == Offline <==> !HeardFrom(db.points, v, now))
            && (forall i | Wins(db.points, v, i) ::
                  && live.recordedAt == Some(db.points[i].fix.recordedAt)
                  && live.lat == Some(db.points[i].fix.lat) && live.lng == Some(db.points[i].fix.lng)
                  && live.speed == Some(db.points[i].fix.speed)
                  && (HeardFrom(db.points, v, now) ==>
                        (live.status == Moving <==> db.points[i].fix.speed > 500)))
            && (!HasHistory(db.points, v) ==> live.recordedAt.None? && live.lat.None? && live.speed.None?)
  {
    if v in db.current {
      var w :| Wins(db.points, v, w) && db.current[v] == db.points[w].fix;
      assert forall i | Wins(db.points, v, i) :: i == w;
    } else {
      assert !HasHistory(db.points, v);
      assert forall i | 0 <= i < |db.points| :: db.points[i].vehicleId != v;
    }
  }

  /** The driver and the fleet view show the same. */
  lemma ViewsAgree(db: Db, user: User, v: int, now: int)
    requires user.vehicleId == Some(v) && v in db.vehicles
    ensures var own, fleet := GetCurrentLocation(db, user, now), AdminVehicleOut(db, v, now);
            && own.Ok? && fleet.id == v && fleet.code == own.value.code
            && fleet.name == db.vehicles[v].name && fleet.isActive == db.vehicles[v].isActive
            && if fleet.live.Some? then fleet.live.value == own.value
               else own.value == VehicleLive(v, db.vehicles[v].code, None, None, None, None, Offline)
  {
  }

  /** While a vehicle's row stays as it is, offline is for good. */
  lemma OfflineIsPermanent(db: Db, later: Db, user: User, now: int, afterwards: int)
    requires user.vehicleId.Some? && now <= afterwards
    requires Lookup(later.current, user.vehicleId.value) == Lookup(db.current, user.vehicleId.value)
    requires GetCurrentLocation(db, user, now).Ok? && GetCurrentLocation(db, user, now).value.status == Offline
    requires GetCurrentLocation(later, user, afterwards).Ok?
    ensures GetCurrentLocation(later, user, afterwards).value.status == Offline
  {
  }

  // ----- Ordering ------------------------------------------------------------------------------

  predicate Sorted(rows: seq<GpsPoint>) {
    forall i, j | 0 <= i < j < |rows| :: Before(rows[i], rows[j])
  }

  predicate DistinctIds(points: seq<GpsPoint>) {
    forall i, j | 0 <= i < j < |points| :: points[i].id != points[j].id
  }

  /** Where insertion puts the new point. */
  lemma {:induction false} InsertAt(p: GpsPoint, rows: seq<GpsPoint>) returns (k: nat)
    requires Sorted(rows) && forall i | 0 <= i < |rows| :: rows[i].id != p.id
    ensures k <= |rows| && Insert(p, rows) == rows[..k] + [p] + rows[k..]
    ensures forall i | 0 <= i < k :: Before(rows[i], p)
    ensures forall i | k <= i < |rows| :: Before(p, rows[i])
  {
    if rows == [] || Before(rows[|rows| - 1], p) {
      k := |rows|;
    } else {
      var front, last := rows[..|rows| - 1], rows[|rows| - 1];
      k := InsertAt(p, front);
      assert Insert(p, rows) == (front[..k] + [p] + front[k..]) + [last];
      assert rows[..k] == front[..k] && rows[k..] == front[k..] + [last];
      forall i | k <= i < |rows| ensures Before(p, rows[i]) {
        assert i < |front| ==> front[i] == rows[i];
      }
      forall i | 0 <= i < k ensures Before(rows[i], p) {
        assert front[i] == rows[i];
      }
    }
  }

  lemma InsertKeepsSorted(p: GpsPoint, rows: seq<GpsPoint>)
    requires Sorted(rows) && forall i | 0 <= i < |rows| :: rows[i].id != p.id
    ensures Sorted(Insert(p, rows))
    ensures forall q :: q in Insert(p, rows) <==> q in rows || q == p
    ensures |Insert(p, rows)| == |rows| + 1
  {
    var k := InsertAt(p, rows);
    var all := rows[..k] + [p] + rows[k..];
    forall i, j | 0 <= i < j < |all| ensures Before(all[i], all[j]) {
      assert i < k ==> all[i] == rows[i];
      assert i > k ==> all[i] == rows[i - 1];
      assert j < k ==> all[j] == rows[j];
      assert j > k ==> all[j] == rows[j - 1];
    }
    assert forall q :: q in rows <==> q in rows[..k] || q in rows[k..] by {
      assert rows == rows[..k] + rows[k..];
    }
  }

  /** Sorting yields the same points, in strictly increasing order. */
  lemma {:induction false} OrderedIsSorted(points: seq<GpsPoint>)
    requires DistinctIds(points)
    ensures Sorted(Ordered(points)) && |Ordered(points)| == |points|
    ensures forall p :: p in Ordered(points) <==> p in points
  {
    if points != [] {
      var front, p := points[..|points| - 1], points[|points| - 1];
      assert points == front + [p];
      OrderedIsSorted(front);
      forall i | 0 <= i < |Ordered(front)| ensures Ordered(front)[i].id != p.id {
        assert Ordered(front)[i] in front;
      }
      InsertKeepsSorted(p, Ordered(front));
    }
  }

  predicate InWindow(p: GpsPoint, v: int, since: int, to: int) {
    p.vehicleId == v && since <= p.fix.recordedAt <= to
  }

  lemma {:induction false} PointsOfSelects(points: seq<GpsPoint>, v: int)
    requires DistinctIds(points)
    ensures forall p :: p in PointsOf(points, v) <==> p in points && p.vehicleId == v
    ensures DistinctIds(PointsOf(points, v))
  {
    if points != [] {
      var front, last := points[..|points| - 1], points[|points| - 1];
      assert points == front + [last];
      PointsOfSelects(front, v);
      assert forall q | q in front :: q.id != last.id;
    }
  }

  lemma {:induction false} WithinSelects(points: seq<GpsPoint>, since: int, to: int)
    requires DistinctIds(points)
    ensures forall p :: p in Within(points, since, to) <==> p in points && since <= p.fix.recordedAt <= to
    ensures DistinctIds(Within(points, since, to))
  {
    if points != [] {
      var front, last := points[..|points| - 1], points[|points| - 1];
      assert points == front + [last];
      WithinSelects(front, since, to);
      assert forall q | q in front :: q.id != last.id;
    }
  }

  /** The query result: exactly the stored points in the window, strictly increasing by time and
      id (so each once), as many as `count` says. */
  lemma RowsAreWindow(points: seq<GpsPoint>, v: int, since: int, to: int)
    requires DistinctIds(points)
    ensures forall p :: p in Rows(points, v, since, to) <==> p in points && InWindow(p, v, since, to)
    ensures Sorted(Rows(points, v, since, to))
    ensures |Rows(points, v, since, to)| == |Matching(points, v, since, to)|
  {
    PointsOfSelects(points, v);
    WithinSelects(PointsOf(points, v), since, to);
    OrderedIsSorted(Matching(points, v, since, to));
  }

  // ----- Paging --------------------------------------------------------------------------------

  /** The points served on the first `n` pages, one after the other. */
  function ServedPages(db: Db, user: User, params: HistoryParams, now: int, n: nat): seq<Fix>
    requires params.Valid() && user.vehicleId.Some?
  {
    if n == 0 then []
    else
      ServedPages(db, user, params, now, n - 1) +
      GetHistory(db, user, params.(offset := PageStart(params.limit, n - 1)), now).value.points
  }

  function PageStart(limit: nat, n: nat): nat {
    if n == 0 then 0 else PageStart(limit, n - 1) + limit
  }

  lemma PageExtends(rows: seq<GpsPoint>, limit: nat, start: nat)
    ensures Fixes(rows[..Min(start, |rows|)]) + Fixes(Page(rows, limit, start)) ==
              Fixes(rows[..Min(start + limit, |rows|)])
  {
  }

  lemma OnePage(db: Db, user: User, params: HistoryParams, now: int, start: nat)
    requires params.Valid() && user.vehicleId.Some? && params.dateFrom.Some? && params.dateTo.Some?
    ensures var rows := Rows(db.points, user.vehicleId.value, params.dateFrom.value, params.dateTo.value);
            GetHistory(db, user, params.(offset := start), now).value.points == Fixes(Page(rows, params.limit, start))
  {
  }

  lemma {:induction false} WalkIsPrefix(db: Db, user: User, params: HistoryParams, now: int, n: nat)
    requires params.Valid() && user.vehicleId.Some? && params.dateFrom.Some? && params.dateTo.Some?
    ensures var rows := Rows(db.points, user.vehicleId.value, params.dateFrom.value, params.dateTo.value);
            ServedPages(db, user, params, now, n) == Fixes(rows[..Min(PageStart(params.limit, n), |rows|)])
  {
    var rows := Rows(db.points, user.vehicleId.value, params.dateFrom.value, params.dateTo.value);
    if n == 0 {
      assert rows[..0] == [];
    } else {
      var start := PageStart(params.limit, n - 1);
      WalkIsPrefix(db, user, params, now, n - 1);
      OnePage(db, user, params, now, start);
      PageExtends(rows, params.limit, start);
    }
  }

  lemma {:induction false} PageStartIsProduct(limit: nat, n: nat)
    ensures PageStart(limit, n) == n * limit
  {
    if n > 0 {
      PageStartIsProduct(limit, n - 1);
      assert (n - 1) * limit + limit == n * limit;
    }
  }

  /** Paging is complete: for a fixed window and any limit, the pages at offsets 0, limit,
      2*limit, ... put together are the whole result as soon as the offsets reach its length, and
      every page carries this length. */
  lemma PagesComplete(db: Db, user: User, params: HistoryParams, now: int, n: nat)
    requires params.Valid() && user.vehicleId.Some? && params.dateFrom.Some? && params.dateTo.Some?
    requires PointsOrdered(db.points, db.nextPoint)
    ensures var v := user.vehicleId.value;
            var rows := Rows(db.points, v, params.dateFrom.value, params.dateTo.value);
            && GetHistory(db, user, params, now).Ok? && GetHistory(db, user, params, now).value.vehicleId == v
            && GetHistory(db, user, params, now).value.count == |rows|
            && (n * params.limit >= |rows| ==> ServedPages(db, user, params, now, n) == Fixes(rows))
  {
    var rows := Rows(db.points, user.vehicleId.value, params.dateFrom.value, params.dateTo.value);
    RowsAreWindow(db.points, user.vehicleId.value, params.dateFrom.value, params.dateTo.value);
    WalkIsPrefix(db, user, params, now, n);
    PageStartIsProduct(params.limit, n);
    if PageStart(params.limit, n) >= |rows| {
      assert rows[..|rows|] == rows;
    }
  }

  /** The window a request asks for: it ends at `to`, or now; it begins at `from`, or 24 hours before
      its end. */
  predicate Asked(params: HistoryParams, now: int, since: int, to: int) {
    && (params.dateTo.Some? ==> to == params.dateTo.value)
    && (params.dateTo.None? ==> to == now)
    && (params.dateFrom.Some? ==> since == params.dateFrom.value)
    && (params.dateFrom.None? ==> to - since == 86_400_000_000)
  }

  /** LIMIT and OFFSET: the fixes from `offset` on, `limit` of them at most. */
  predicate ServesPage(points: seq<Fix>, rows: seq<GpsPoint>, limit: nat, offset: nat) {
    && |points| == (if offset >= |rows| then 0 else Min(limit, |rows| - offset))
    && forall i | 0 <= i < |points| :: offset + i < |rows| && points[i] == rows[offset + i].fix
  }

  lemma PageServes(rows: seq<GpsPoint>, limit: nat, offset: nat)
    ensures ServesPage(Fixes(Page(rows, limit, offset)), rows, limit, offset)
  {
  }

  lemma AskedFor(db: Db, user: User, params: HistoryParams, now: int, since: int, to: int)
    requires params.Valid() && user.vehicleId.Some? && Asked(params, now, since, to)
    ensures var v := user.vehicleId.value;
            GetHistory(db, user, params, now) ==
              Ok(History(v, |Matching(db.points, v, since, to)|,
                         Fixes(Page(Rows(db.points, v, since, to), params.limit, params.offset))))
  {
  }

  /** The answer to any request, whichever of its bounds are given: the rows are the vehicle's points in
      the window asked for, strictly increasing by time and then id; all of them are counted, and those
      from `offset` on are served, `limit` of them at most. */
  lemma HistoryExactly(db: Db, user: User, params: HistoryParams, now: int, since: int, to: int)
    returns (rows: seq<GpsPoint>)
    requires params.Valid() && user.vehicleId.Some? && PointsOrdered(db.points, db.nextPoint)
    requires Asked(params, now, since, to)
    ensures forall p :: p in rows <==>
              p in db.points && p.vehicleId == user.vehicleId.value && since <= p.fix.recordedAt <= to
    ensures forall i, j | 0 <= i < j < |rows| ::
              || rows[i].fix.recordedAt < rows[j].fix.recordedAt
              || (rows[i].fix.recordedAt == rows[j].fix.recordedAt && rows[i].id < rows[j].id)
    ensures var answer := GetHistory(db, user, params, now);
            && answer.Ok? && answer.value.vehicleId == user.vehicleId.value && answer.value.count == |rows|
            && ServesPage(answer.value.points, rows, params.limit, params.offset)
  {
    hide Rows, Matching, GetHistory, Page, Fixes, ServesPage;
    rows := Rows(db.points, user.vehicleId.value, since, to);
    RowsAreWindow(db.points, user.vehicleId.value, since, to);
    AskedFor(db, user, params, now, since, to);
    PageServes(rows, params.limit, params.offset);
    assert forall i, j | 0 <= i < j < |rows| :: Before(rows[i], rows[j]);
  }

  /** Without bounds the window is the last 24 hours; with an end alone, the 24 hours before it. */
  lemma DefaultWindow(db: Db, user: User, params: HistoryParams, now: int)
    requires params.Valid() && params.dateFrom.None?
    ensures var end := if params.dateTo.Some? then params.dateTo.value else now;
            GetHistory(db, user, params, now) ==
              GetHistory(db, user, params.(dateFrom := Some(end - 86_400_000_000), dateTo := Some(end)), now)
  {
  }

  /** The newest id: larger than every stored one. */
  predicate FreshId(points: seq<GpsPoint>, p: GpsPoint) {
    forall i | 0 <= i < |points| :: points[i].id < p.id
  }

  lemma MatchingGrows(points: seq<GpsPoint>, p: GpsPoint, v: int, since: int, to: int)
    ensures Rows(points + [p], v, since, to) ==
              if InWindow(p, v, since, to) then Insert(p, Rows(points, v, since, to)) else Rows(points, v, since, to)
  {
    var all := points + [p];
    assert all[..|all| - 1] == points;
    if p.vehicleId == v {
      var own := PointsOf(points, v);
      assert PointsOf(all, v) == own + [p];
      assert (own + [p])[..|own|] == own;
      var m := Within(own, since, to);
      assert (m + [p])[..|m|] == m;
      assert m + [] == m;
    } else {
      assert PointsOf(points, v) + [] == PointsOf(points, v);
    }
  }

  /** Insertion leaves a prefix alone exactly when the new point sorts behind it. */
  lemma InsertBehind(p: GpsPoint, rows: seq<GpsPoint>, k: nat)
    requires Sorted(rows) && 1 <= k <= |rows| && forall i | 0 <= i < |rows| :: rows[i].id != p.id
    ensures |Insert(p, rows)| == |rows| + 1
    ensures Insert(p, rows)[..k] == rows[..k] <==> Before(rows[k - 1], p)
  {
    var j := InsertAt(p, rows);
    var all := rows[..j] + [p] + rows[j..];
    if k <= j {
      assert all[..k] == rows[..k];
    } else {
      assert all[..k][j] == p && rows[..k][j] == rows[j];
      assert Before(p, rows[k - 1]);
    }
  }

  /** A point stored between page requests leaves the first `k` points as they were exactly when
      it is outside the window or not earlier than the last of them. */
  lemma PagesStableExactly(points: seq<GpsPoint>, p: GpsPoint, v: int, since: int, to: int, k: nat)
    requires DistinctIds(points) && FreshId(points, p) && 1 <= k <= |Rows(points, v, since, to)|
    ensures k <= |Rows(points + [p], v, since, to)|
    ensures Rows(points + [p], v, since, to)[..k] == Rows(points, v, since, to)[..k] <==>
              !InWindow(p, v, since, to) || p.fix.recordedAt >= Rows(points, v, since, to)[k - 1].fix.recordedAt
  {
    var rows := Rows(points, v, since, to);
    MatchingGrows(points, p, v, since, to);
    RowsOlder(points, p, v, since, to);
    if InWindow(p, v, since, to) {
      InsertBehind(p, rows, k);
      assert rows[k - 1].id < p.id;
    }
  }

  lemma RowsOlder(points: seq<GpsPoint>, p: GpsPoint, v: int, since: int, to: int)
    requires DistinctIds(points) && FreshId(points, p)
    ensures Sorted(Rows(points, v, since, to))
    ensures forall i | 0 <= i < |Rows(points, v, since, to)| :: Rows(points, v, since, to)[i].id < p.id
  {
    var rows := Rows(points, v, since, to);
    RowsAreWindow(points, v, since, to);
    forall i | 0 <= i < |rows| ensures rows[i].id < p.id {
      assert rows[i] in points;
    }
  }

  // ----- Isolation -----------------------------------------------------------------------------

  /** Two databases look the same to a user: its row, the rows of its route and vehicle, the
      vehicle's points and current row. */
  predicate SameView(a: Db, b: Db, u: int) {
    && u in a.users && u in b.users && a.users[u] == b.users[u]
    && (a.users[u].routeId.Some? ==>
          Lookup(a.routes, a.users[u].routeId.value) == Lookup(b.routes, a.users[u].routeId.value))
    && (a.users[u].vehicleId.Some? ==>
          var v := a.users[u].vehicleId.value;
          && Lookup(a.vehicles, v) == Lookup(b.vehicles, v)
          && Lookup(a.current, v) == Lookup(b.current, v)
          && PointsOf(a.points, v) == PointsOf(b.points, v))
  }

  /** All four answers of `/me` at one time. */
  datatype Me = Me(assignment: Answer<Assignment>, route: Answer<Polyline>, live: Answer<VehicleLive>,
                   history: Answer<History>)

  function MeAnswers(db: Db, u: int, params: HistoryParams, now: int): Me
    requires u in db.users && params.Valid()
  {
    var user := db.users[u];
    Me(GetAssignment(db, user), GetRoutePolyline(db, user), GetCurrentLocation(db, user, now),
       GetHistory(db, user, params, now))
  }

  /** The answers depend on nothing else. */
  lemma SameViewSameAnswers(a: Db, b: Db, u: int, params: HistoryParams, now: int)
    requires SameView(a, b, u) && params.Valid()
    ensures MeAnswers(a, u, params, now) == MeAnswers(b, u, params, now)
  {
  }

  /** In a sound database the four answers stand or fall together: a user without an assignment
      gets none of them, and one with an assignment gets its own rows in all of them. */
  lemma AllOrNothing(db: Db, u: int, params: HistoryParams, now: int)
    requires Sound(db) && u in db.users && PairComplete(db.users[u]) && params.Valid()
    ensures var me, user := MeAnswers(db, u, params, now), db.users[u];
            if user.routeId.None? then me == Me(NoAssignment, NoAssignment, NoAssignment, NoAssignment)
            else
              var r, v := user.routeId.value, user.vehicleId.value;
              && r in db.routes && v in db.vehicles
              && me.assignment == Ok(Assignment(
                   Some(RouteSummary(r, db.routes[r].name)),
                   Some(VehicleSummary(v, db.vehicles[v].code, db.vehicles[v].name))))
              && me.route == Ok(Polyline(r, db.routes[r].name, db.routes[r].waypoints))
              && me.live.Ok? && me.live.value.vehicleId == v
              && me.history.Ok? && me.history.value.vehicleId == v
  {
    var user := db.users[u];
    if user.routeId.Some? {
      var r: int, v: int := user.routeId.value, user.vehicleId.value;
      assert r in db.routes && v in db.vehicles && r >= 1 && v >= 1;
    }
  }

  /** Whatever the database, who gets which answer: nothing of the assignment without a route and a
      vehicle id, nothing of the route without a route, nothing of the vehicle without a vehicle. */
  lemma AnswersExactly(db: Db, user: User, params: HistoryParams, now: int)
    requires params.Valid()
    ensures GetAssignment(db, user) == NoAssignment <==> user.routeId == None && user.vehicleId == None
    ensures GetRoutePolyline(db, user) == NoAssignment <==> user.routeId.None? || user.routeId.value !in db.routes
    ensures GetCurrentLocation(db, user, now) == NoAssignment <==>
              user.vehicleId.None? || user.vehicleId.value !in db.vehicles
    ensures GetHistory(db, user, params, now) == NoAssignment <==> user.vehicleId.None?
    ensures GetAssignment(db, user).Ok? ==>
              var a := GetAssignment(db, user).value;
              && (a.route.Some? <==> user.routeId.Some? && user.routeId != Some(0) && user.routeId.value in db.routes)
              && (a.vehicle.Some? <==>
                    user.vehicleId.Some? && user.vehicleId != Some(0) && user.vehicleId.value in db.vehicles)
              && (a.route.Some? ==> a.route.value.id == user.routeId.value
                                    && a.route.value.name == db.routes[user.routeId.value].name)
              && (a.vehicle.Some? ==> a.vehicle.value.id == user.vehicleId.value
                                      && a.vehicle.value.code == db.vehicles[user.vehicleId.value].code
                                      && a.vehicle.value.name == db.vehicles[user.vehicleId.value].name)
    ensures GetRoutePolyline(db, user).Ok? ==>
              var p := GetRoutePolyline(db, user).value;
              && p.id == user.routeId.value && p.name == db.routes[p.id].name
              && p.waypoints == db.routes[p.id].waypoints
  {
  }

  /** Under a one-to-one assignment no two users are ever shown the same vehicle or route. */
  lemma NoSharedView(db: Db, a: int, b: int, now: int)
    requires OneToOne(db.users) && a in db.users && b in db.users && a != b
    ensures var x, y := GetCurrentLocation(db, db.users[a], now), GetCurrentLocation(db, db.users[b], now);
            x.Ok? && y.Ok? ==> x.value.vehicleId != y.value.vehicleId
    ensures var x, y := GetRoutePolyline(db, db.users[a]), GetRoutePolyline(db, db.users[b]);
            x.Ok? && y.Ok? ==> x.value.id != y.value.id
  {
  }
}
