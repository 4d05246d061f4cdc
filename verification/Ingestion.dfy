/** From a delivered message to the tables (app/mqtt/payload.py, client.py and handler.py). */
module Ingestion {
  import opened Schema
  import opened FixedPoint
  import opened Topic

  // ----- The payload ---------------------------------------------------------------------------

  /** What JSON decoding hands over: no object at all, or typed fields. `aware` tells whether the
      timestamp carries a zone; `timestamp` is its instant in UTC microseconds. */
  datatype Payload =
    | NotAnObject
    | Record(vehicleId: int, lat: real, lng: real, speed: real, timestamp: int, aware: bool)

  datatype GPSMessage = GPSMessage(vehicleId: int, lat: real, lng: real, speed: real, timestamp: int)

  predicate InContract(m: GPSMessage) {
    && m.vehicleId >= 1
    && -90.0 <= m.lat <= 90.0 && -180.0 <= m.lng <= 180.0
    && 0.0 <= m.speed <= 300.0
  }

  function ParsePayload(p: Payload): Option<GPSMessage> {
    if p.NotAnObject? || !p.aware then None
    else
      var m := GPSMessage(p.vehicleId, p.lat, p.lng, p.speed, p.timestamp);
      if InContract(m) then Some(m) else None
  }

  /** The row a message is stored as. */
  function Quantised(m: GPSMessage): Fix {
    Fix(RoundHalfAway(m.lat * 1000000.0), RoundHalfAway(m.lng * 1000000.0),
        RoundHalfAway(m.speed * 100.0), m.timestamp)
  }

  // ----- Two phases ----------------------------------------------------------------------------

  /** What the handler knows after its reads: the message, and the current row it has seen. */
  datatype PendingFix = PendingFix(message: GPSMessage, seen: Option<Fix>)

  function ReadPhase(db: Db, m: GPSMessage): Option<PendingFix> {
    if m.vehicleId in db.vehicles && db.vehicles[m.vehicleId].isActive
    then Some(PendingFix(m, Lookup(db.current, m.vehicleId)))
    else None
  }

  predicate Overwrites(p: PendingFix) {
    p.seen.None? || p.message.timestamp > p.seen.value.recordedAt
  }

  /** The constraints met at commit: the foreign key of the point, the primary key of a new
      current row, and the presence of a current row to be updated. */
  predicate Committable(db: Db, p: PendingFix) {
    var v := p.message.vehicleId;
    && v in db.vehicles
    && (p.seen.None? ==> v !in db.current)
    && (p.seen.Some? && Overwrites(p) ==> v in db.current)
  }

  /** A refused commit leaves every table as it was; the point id it drew stays used. */
  function CommitPhase(db: Db, p: PendingFix): Db {
    var v, fix := p.message.vehicleId, Quantised(p.message);
    var drawn := db.(nextPoint := db.nextPoint + 1);
    if Committable(db, p) then
      drawn.(points := db.points + [GpsPoint(db.nextPoint, v, fix)],
             current := if Overwrites(p) then db.current[v := fix] else db.current)
    else drawn
  }

  function Ingest(db: Db, m: GPSMessage): Db {
    match ReadPhase(db, m)
    case None => db
    case Some(p) => CommitPhase(db, p)
  }

  /** Topic, payload and their agreement. */
  function Decode(prefix: string, topic: string, payload: Payload): Option<GPSMessage> {
    match ParseTopic(topic, prefix)
    case None => None
    case Some(id) =>
      match ParsePayload(payload)
      case None => None
      case Some(m) => if m.vehicleId != id then None else Some(m)
  }

  /** What reaches the handler, and its reads. */
  function Receive(db: Db, prefix: string, topic: string, payload: Payload): Option<PendingFix> {
    match Decode(prefix, topic, payload)
    case None => None
    case Some(m) => ReadPhase(db, m)
  }

  datatype Delivery = Delivery(topic: string, payload: Payload)

  /** One message handled from topic to commit, with nothing in between. */
  function ProcessOne(db: Db, prefix: string, d: Delivery): Db {
    match Receive(db, prefix, d.topic, d.payload)
    case None => db
    case Some(p) => CommitPhase(db, p)
  }

  function ProcessAll(db: Db, prefix: string, ds: seq<Delivery>): Db {
    if ds == [] then db else ProcessOne(ProcessAll(db, prefix, ds[..|ds| - 1]), prefix, ds[|ds| - 1])
  }

  // ----- The handler ---------------------------------------------------------------------------

  method ReadFix(db: Session, message: GPSMessage) returns (pending: Option<PendingFix>)
    ensures pending == ReadPhase(db.State(), message)
  {
    if message.vehicleId !in db.vehicles {
      return None;
    }
    var vehicle := db.vehicles[message.vehicleId];
    if !vehicle.isActive {
      return None;
    }
    return Some(PendingFix(message, Lookup(db.current, message.vehicleId)));
  }

  method CommitFix(db: Session, pending: PendingFix) returns (stored: bool)
    modifies db
    ensures db.State() == CommitPhase(old(db.State()), pending)
    ensures stored == Committable(old(db.State()), pending)
  {
    var message := pending.message;
    var v, recordedAt := message.vehicleId, message.timestamp;
    var id := db.nextPoint;
    db.nextPoint := id + 1;
    if v !in db.vehicles {
      return false;
    }
    var row := Fix(RoundHalfAway(message.lat * 1000000.0), RoundHalfAway(message.lng * 1000000.0),
                   RoundHalfAway(message.speed * 100.0), recordedAt);
    if pending.seen.None? {
      if v in db.current {
        return false;
      }
      db.current := db.current[v := row];
    } else if recordedAt > pending.seen.value.recordedAt {
      if v !in db.current {
        return false;
      }
      db.current := db.current[v := row];
    }
    db.points := db.points + [GpsPoint(id, v, row)];
    return true;
  }

  method HandleGpsMessage(db: Session, message: GPSMessage) returns (stored: bool)
    modifies db
    ensures db.State() == Ingest(old(db.State()), message)
    ensures stored <==> ReadPhase(old(db.State()), message).Some?
  {
    var pending := ReadFix(db, message);
    if pending.None? {
      return false;
    }
    stored := CommitFix(db, pending.value);
  }

  method ProcessMessage(db: Session, prefix: string, topic: string, payload: Payload) returns (stored: bool)
    modifies db
    ensures stored == Receive(old(db.State()), prefix, topic, payload).Some?
    ensures db.State() == ProcessOne(old(db.State()), prefix, Delivery(topic, payload))
  {
    var vehicleId := ParseTopic(topic, prefix);
    if vehicleId.None? {
      return false;
    }
    var message := ParsePayload(payload);
    if message.None? {
      return false;
    }
    if message.value.vehicleId != vehicleId.value {
      return false;
    }
    stored := HandleGpsMessage(db, message.value);
  }

  /** The consuming loop of one connection: each message is done with before the next is taken. */
  method Consume(db: Session, prefix: string, ds: seq<Delivery>)
    modifies db
    ensures db.State() == ProcessAll(old(db.State()), prefix, ds)
  {
    for i := 0 to |ds|
      invariant db.State() == ProcessAll(old(db.State()), prefix, ds[..i])
    {
      var _ := ProcessMessage(db, prefix, ds[i].topic, ds[i].payload);
      assert ds[..i + 1][..i] == ds[..i];
    }
    assert ds[..|ds|] == ds;
  }

  predicate LaterOrSame(p: GpsPoint, q: GpsPoint) {
    p.fix.recordedAt > q.fix.recordedAt || (p.fix.recordedAt == q.fix.recordedAt && p.id >= q.id)
  }

  /** `latest_fix`: ORDER BY recorded_at DESC, id DESC LIMIT 1. */
  function LatestFix(points: seq<GpsPoint>, v: int): (r: Option<GpsPoint>)
    ensures r.Some? ==> r.value in points && r.value.vehicleId == v
    ensures forall j | 0 <= j < |points| && points[j].vehicleId == v ::
              && r.Some?
              && (|| points[j].fix.recordedAt < r.value.fix.recordedAt
                  || (points[j].fix.recordedAt == r.value.fix.recordedAt && points[j].id <= r.value.id))
  {
    if points == [] then None
    else
      var best, p := LatestFix(points[..|points| - 1], v), points[|points| - 1];
      if p.vehicleId != v then best
      else if best.None? || LaterOrSame(p, best.value) then Some(p)
      else best
  }

  // ----- The index -----------------------------------------------------------------------------

  /** The snapshot a pending fix carries is still the current row. */
  predicate SnapshotHolds(db: Db, p: PendingFix) {
    p.seen == Lookup(db.current, p.message.vehicleId)
  }

  /** On any snapshot a commit is refused, leaving every table alone, exactly when the vehicle is gone, or a
      current row it would insert is there already, or one it would update is gone. */
  lemma CommitRefusals(db: Db, p: PendingFix)
    ensures var v, after := p.message.vehicleId, CommitPhase(db, p);
            var refused := || v !in db.vehicles
                           || (p.seen == None && v in db.current)
                           || (p.seen != None && p.message.timestamp > p.seen.value.recordedAt && v !in db.current);
            && (refused ==> after.(nextPoint := db.nextPoint) == db)
            && (!refused ==> after.points == db.points + [GpsPoint(db.nextPoint, v, Quantised(p.message))])
  {
  }

  /** So two first fixes read at once cannot both become the first row: the second commit is refused. */
  lemma FirstRowOnce(db: Db, p: PendingFix, q: PendingFix)
    requires p.seen.None? && q.seen.None? && p.message.vehicleId == q.message.vehicleId && Committable(db, p)
    ensures var mid := CommitPhase(db, p);
            !Committable(mid, q) && CommitPhase(mid, q).(nextPoint := mid.nextPoint) == mid
  {
  }

  lemma WinsKept(points: seq<GpsPoint>, p: GpsPoint, v: int, i: int)
    requires Wins(points, v, i)
    requires p.vehicleId == v ==> p.fix.recordedAt <= points[i].fix.recordedAt
    ensures Wins(points + [p], v, i)
  {
  }

  lemma HistoryGrows(points: seq<GpsPoint>, p: GpsPoint, v: int)
    ensures HasHistory(points + [p], v) <==> HasHistory(points, v) || p.vehicleId == v
  {
    var all := points + [p];
    if HasHistory(points, v) {
      var i :| 0 <= i < |points| && points[i].vehicleId == v;
      assert all[i].vehicleId == v;
    }
    assert all[|points|] == p;
  }

  /** The core of the upsert: appending a point and overwriting on strictly newer only keeps the
      current row the earliest-inserted fix among the newest. */
  lemma UpsertKeepsIndex(points: seq<GpsPoint>, current: map<int, Fix>, p: GpsPoint)
    requires IndexAgrees(points, current)
    ensures var v := p.vehicleId;
            IndexAgrees(points + [p],
                        if v !in current || p.fix.recordedAt > current[v].recordedAt
                        then current[v := p.fix] else current)
  {
    var v, all := p.vehicleId, points + [p];
    var now := if v !in current || p.fix.recordedAt > current[v].recordedAt then current[v := p.fix] else current;
    forall w
      ensures w in now <==> HasHistory(all, w)
      ensures w in now ==> exists i :: Wins(all, w, i) && now[w] == all[i].fix
    {
      HistoryGrows(points, p, w);
      if w in current && (w != v || p.fix.recordedAt <= current[v].recordedAt) {
        var i :| Wins(points, w, i) && current[w] == points[i].fix;
        WinsKept(points, p, w, i);
        assert all[i].fix == now[w];
      } else if w == v {
        if v in current {
          var i :| Wins(points, v, i) && current[v] == points[i].fix;
        }
        assert Wins(all, v, |points|) && all[|points|].fix == now[v];
      }
    }
  }

  /** A commit on a snapshot that still holds is refused only when the vehicle is gone, and keeps
      the whole database sound. */
  lemma CommitKeepsSound(db: Db, p: PendingFix)
    requires Sound(db) && (p.message.vehicleId in db.vehicles ==> SnapshotHolds(db, p))
    ensures Sound(CommitPhase(db, p))
    ensures Committable(db, p) <==> p.message.vehicleId in db.vehicles
  {
    var after := CommitPhase(db, p);
    if p.message.vehicleId in db.vehicles {
      UpsertKeepsIndex(db.points, db.current, GpsPoint(db.nextPoint, p.message.vehicleId, Quantised(p.message)));
    }
    assert PointsOrdered(after.points, after.nextPoint);
  }

  /** What the upsert should do: overwrite exactly when the message is newer than the row that is
      there now, whatever row was seen. */
  predicate DecidesRightly(db: Db, p: PendingFix) {
    Overwrites(p) <==> Fresh(db, p.message)
  }

  /** A stale overwrite that changes nothing: it repeats the current row. */
  predicate RepeatsCurrent(db: Db, p: PendingFix) {
    var v := p.message.vehicleId;
    v in db.current && p.message.timestamp == db.current[v].recordedAt && Quantised(p.message) == db.current[v]
  }

  lemma WinnerIsUnique(points: seq<GpsPoint>, v: int, i: int, j: int)
    requires Wins(points, v, i) && Wins(points, v, j)
    ensures i == j
  {
  }

  /** A row that is not the winner breaks the index, and so does a missing one. */
  lemma WrongRow(points: seq<GpsPoint>, current: map<int, Fix>, v: int, i: int)
    requires Wins(points, v, i) && (v in current ==> current[v] != points[i].fix)
    ensures !IndexAgrees(points, current)
  {
    if IndexAgrees(points, current) {
      assert HasHistory(points, v);
      var j :| Wins(points, v, j) && current[v] == points[j].fix;
      WinnerIsUnique(points, v, i, j);
    }
  }

  /** A newer message that is not written to the current row. */
  lemma MissedOverwrite(points: seq<GpsPoint>, current: map<int, Fix>, p: GpsPoint)
    requires IndexAgrees(points, current)
    requires p.vehicleId in current ==> p.fix.recordedAt > current[p.vehicleId].recordedAt
    ensures !IndexAgrees(points + [p], current)
  {
    var v, all := p.vehicleId, points + [p];
    var now := current[v := p.fix];
    UpsertKeepsIndex(points, current, p);
    assert v in now;
    var i :| Wins(all, v, i) && now[v] == all[i].fix;
    WrongRow(all, current, v, i);
  }

  /** A message that is written though the row there is not older. */
  lemma UndueOverwrite(points: seq<GpsPoint>, current: map<int, Fix>, p: GpsPoint)
    requires IndexAgrees(points, current)
    requires p.vehicleId in current && p.fix.recordedAt <= current[p.vehicleId].recordedAt
    ensures IndexAgrees(points + [p], current[p.vehicleId := p.fix]) <==> p.fix == current[p.vehicleId]
  {
    var v, all := p.vehicleId, points + [p];
    UpsertKeepsIndex(points, current, p);
    var i :| Wins(all, v, i) && current[v] == all[i].fix;
    if p.fix == current[v] {
      assert current[v := p.fix] == current;
    } else {
      WrongRow(all, current[v := p.fix], v, i);
    }
  }

  lemma StaleCommitIntegrity(db: Db, p: PendingFix)
    requires Integrity(db) && Committable(db, p)
    ensures Integrity(CommitPhase(db, p))
  {
    assert PointsOrdered(CommitPhase(db, p).points, CommitPhase(db, p).nextPoint);
  }

  /** On whatever row was seen, a commit keeps the database sound exactly when it decides as it would
      on the row that is there now, or repeats this row. */
  lemma StaleCommitExactly(db: Db, p: PendingFix)
    requires Sound(db) && Committable(db, p)
    ensures Sound(CommitPhase(db, p)) <==> DecidesRightly(db, p) || RepeatsCurrent(db, p)
  {
    var after, point := CommitPhase(db, p), GpsPoint(db.nextPoint, p.message.vehicleId, Quantised(p.message));
    StaleCommitIntegrity(db, p);
    if DecidesRightly(db, p) {
      UpsertKeepsIndex(db.points, db.current, point);
    } else if Overwrites(p) {
      UndueOverwrite(db.points, db.current, point);
    } else {
      MissedOverwrite(db.points, db.current, point);
    }
  }

  /** The single subscriber matters: when two transactions read the same row and the newer commits
      first, the older one overwrites it, and the index no longer holds the newest fix. */
  lemma TwoWritersLoseUpdate()
    ensures exists db: Db, p: PendingFix, q: PendingFix ::
              && Sound(db) && SnapshotHolds(db, p) && SnapshotHolds(db, q)
              && Committable(db, p) && Committable(CommitPhase(db, p), q)
              && !IndexAgrees(CommitPhase(CommitPhase(db, p), q).points, CommitPhase(CommitPhase(db, p), q).current)
  {
    var first := Fix(0, 0, 0, 10);
    var db := EMPTY_DB.(vehicles := map[1 := Vehicle("BUS-001", "Bus", true)], nextVehicle := 2,
                        points := [GpsPoint(1, 1, first)], nextPoint := 2, current := map[1 := first]);
    var p := PendingFix(GPSMessage(1, 0.0, 0.0, 0.0, 30), Some(first));
    var q := PendingFix(GPSMessage(1, 0.0, 0.0, 0.0, 20), Some(first));
    assert Wins(db.points, 1, 0);
    assert Sound(db);
    var mid := CommitPhase(db, p);
    var end := CommitPhase(mid, q);
    assert end.points == [GpsPoint(1, 1, first),
                          GpsPoint(2, 1, Quantised(p.message)), GpsPoint(3, 1, Quantised(q.message))];
    assert end.current[1].recordedAt == 20 && end.points[1].fix.recordedAt == 30;
    forall i | Wins(end.points, 1, i) ensures end.points[i].fix.recordedAt >= 30 {
    }
    assert 1 in end.current;
  }

  lemma IngestKeepsSound(db: Db, m: GPSMessage)
    requires Sound(db)
    ensures Sound(Ingest(db, m))
  {
    var p := ReadPhase(db, m);
    if p.Some? {
      CommitKeepsSound(db, p.value);
    }
  }

  /** The index and the simple query agree on presence and on time always. On a tie the index
      holds the smallest id and the query returns the largest, so they agree on the whole fix
      where the newest fixes of the vehicle are all the same. */
  lemma LatestFixAgreesWithIndex(db: Db, v: int) returns (i: int)
    requires Sound(db)
    ensures v in db.current <==> LatestFix(db.points, v).Some?
    ensures v in db.current ==>
              && Wins(db.points, v, i) && db.current[v] == db.points[i].fix
              && LatestFix(db.points, v).value.fix.recordedAt == db.current[v].recordedAt
              && LatestFix(db.points, v).value.id >= db.points[i].id
    ensures v in db.current && (forall j | 0 <= j < |db.points| && db.points[j].vehicleId == v
                                           && db.points[j].fix.recordedAt == db.current[v].recordedAt ::
                                  db.points[j].fix == db.current[v])
            ==> LatestFix(db.points, v).value.fix == db.current[v]
  {
    i := -1;
    if v in db.current {
      i :| Wins(db.points, v, i) && db.current[v] == db.points[i].fix;
      var p := LatestFix(db.points, v).value;
      var k :| 0 <= k < |db.points| && db.points[k] == p;
      assert LaterOrSame(p, db.points[i]);
    }
  }

  // ----- Delivery order ------------------------------------------------------------------------

  function FixesOf(points: seq<GpsPoint>, v: int): set<Fix> {
    set i | 0 <= i < |points| && points[i].vehicleId == v :: points[i].fix
  }

  /** `f` is among the newest of a set. */
  predicate Newest(fixes: set<Fix>, f: Fix) {
    f in fixes && forall g | g in fixes :: g.recordedAt <= f.recordedAt
  }

  lemma CurrentIsNewest(db: Db, v: int)
    requires IndexAgrees(db.points, db.current)
    ensures v in db.current <==> FixesOf(db.points, v) != {}
    ensures v in db.current ==> Newest(FixesOf(db.points, v), db.current[v])
  {
    if v in db.current {
      var i :| Wins(db.points, v, i) && db.current[v] == db.points[i].fix;
      assert db.points[i].fix in FixesOf(db.points, v);
    } else {
      assert forall i | 0 <= i < |db.points| :: db.points[i].vehicleId != v;
    }
  }

  /** Whatever happened on the way, two databases whose stored fixes of a vehicle are the same set
      agree on its current time, and on the whole current row when the newest fix is unique. */
  lemma CurrentDependsOnFixSet(a: Db, b: Db, v: int)
    requires Sound(a) && Sound(b) && FixesOf(a.points, v) == FixesOf(b.points, v)
    ensures v in a.current <==> v in b.current
    ensures v in a.current ==> a.current[v].recordedAt == b.current[v].recordedAt
    ensures v in a.current
            && (forall f, g | Newest(FixesOf(a.points, v), f) && Newest(FixesOf(a.points, v), g) :: f == g)
            ==> a.current[v] == b.current[v]
  {
    CurrentIsNewest(a, v);
    CurrentIsNewest(b, v);
  }

  function IngestAll(db: Db, ms: seq<GPSMessage>): Db {
    if ms == [] then db else Ingest(IngestAll(db, ms[..|ms| - 1]), ms[|ms| - 1])
  }

  predicate Active(db: Db, v: int) {
    v in db.vehicles && db.vehicles[v].isActive
  }

  predicate AllFor(ms: seq<GPSMessage>, v: int) {
    forall i | 0 <= i < |ms| :: ms[i].vehicleId == v
  }

  function Stream(ms: seq<GPSMessage>): set<GPSMessage> {
    set m | m in ms
  }

  /** Newer than the row the vehicle had to begin with. */
  predicate Fresh(db: Db, m: GPSMessage) {
    m.vehicleId in db.current ==> m.timestamp > db.current[m.vehicleId].recordedAt
  }

  predicate Decisive(db: Db, ms: set<GPSMessage>, m: GPSMessage) {
    m in ms && Fresh(db, m) && forall n | n in ms :: n.timestamp <= m.timestamp
  }

  /** One message to an active vehicle: stored, and current if it is newer. */
  lemma IngestOne(db: Db, m: GPSMessage)
    requires Sound(db) && Active(db, m.vehicleId)
    ensures var after := Ingest(db, m);
            && Sound(after) && after.vehicles == db.vehicles
            && after.points == db.points + [GpsPoint(db.nextPoint, m.vehicleId, Quantised(m))]
            && after.current == if Fresh(db, m) then db.current[m.vehicleId := Quantised(m)] else db.current
  {
    IngestKeepsSound(db, m);
    var p := PendingFix(m, Lookup(db.current, m.vehicleId));
    assert ReadPhase(db, m) == Some(p) && Committable(db, p);
  }

  /** The payload contract: a record with a zoned timestamp, an id of at least one, and position and speed
      within bounds; the message carries the record's own values. */
  lemma PayloadExactly(p: Payload, m: GPSMessage)
    ensures ParsePayload(p) == Some(m) <==>
              && p == Record(m.vehicleId, m.lat, m.lng, m.speed, m.timestamp, true) && m.vehicleId >= 1
              && -90.0 <= m.lat <= 90.0 && -180.0 <= m.lng <= 180.0 && 0.0 <= m.speed <= 300.0
  {
  }

  /** A message is taken for what it says exactly when the payload is a record with a zoned timestamp, the
      topic names the payload's vehicle, and position and speed are within bounds. */
  lemma DecodedExactly(prefix: string, topic: string, p: Payload, m: GPSMessage)
    ensures Decode(prefix, topic, p) == Some(m) <==>
              && p == Record(m.vehicleId, m.lat, m.lng, m.speed, m.timestamp, true)
              && ParseTopic(topic, prefix) == Some(m.vehicleId)
              && -90.0 <= m.lat <= 90.0 && -180.0 <= m.lng <= 180.0 && 0.0 <= m.speed <= 300.0
  {
  }

  /** Each column holds the payload's number to the nearest unit, halves away from zero. */
  lemma QuantisedExactly(m: GPSMessage, f: Fix)
    ensures f == Quantised(m) <==>
              && Rounded(m.lat * 1000000.0, f.lat) && Rounded(m.lng * 1000000.0, f.lng)
              && Rounded(m.speed * 100.0, f.speed) && f.recordedAt == m.timestamp
  {
    HalfAwayExactly(m.lat * 1000000.0, f.lat);
    HalfAwayExactly(m.lng * 1000000.0, f.lng);
    HalfAwayExactly(m.speed * 100.0, f.speed);
  }

  /** All that handling a message does: nothing for an unknown or inactive vehicle; otherwise one point
      more, and a new current row where there was none or an older one. No other table is touched. */
  lemma IngestExactly(db: Db, m: GPSMessage)
    requires Sound(db)
    ensures var v, after, fix := m.vehicleId, Ingest(db, m), Quantised(m);
            if v !in db.vehicles || !db.vehicles[v].isActive then after == db
            else
              && after.(points := db.points, current := db.current, nextPoint := db.nextPoint) == db
              && after.points == db.points + [GpsPoint(db.nextPoint, v, fix)] && after.nextPoint == db.nextPoint + 1
              && v in after.current && after.current - {v} == db.current - {v}
              && after.current[v] == (if v in db.current && db.current[v].recordedAt >= m.timestamp
                                      then db.current[v] else fix)
  {
  }

  /** And whatever fails the checks leaves everything as it was. */
  lemma RefusedMessages(db: Db, prefix: string, d: Delivery)
    ensures d.payload.NotAnObject? || ParseTopic(d.topic, prefix) != Some(d.payload.vehicleId)
            || !d.payload.aware || d.payload.vehicleId !in db.vehicles
            || !db.vehicles[d.payload.vehicleId].isActive
            ==> ProcessOne(db, prefix, d) == db
  {
  }

  /** The current row is the old one, or that of a newest fresh message if there was any. */
  predicate Settled(db: Db, v: int, ms: set<GPSMessage>, current: map<int, Fix>) {
    if forall m | m in ms :: !Fresh(db, m) then current == db.current
    else exists m | m in ms :: Decisive(db, ms, m) && current == db.current[v := Quantised(m)]
  }

  lemma SettledStep(db: Db, v: int, ms: set<GPSMessage>, mid: Db, m: GPSMessage, after: map<int, Fix>)
    requires m.vehicleId == v && (forall n | n in ms :: n.vehicleId == v)
    requires Settled(db, v, ms, mid.current)
    requires after == if Fresh(mid, m) then mid.current[v := Quantised(m)] else mid.current
    ensures Settled(db, v, ms + {m}, after)
  {
    var all := ms + {m};
    if forall n | n in ms :: !Fresh(db, n) {
      assert Fresh(mid, m) <==> Fresh(db, m);
      if Fresh(db, m) {
        assert forall n | n in ms :: n.timestamp <= m.timestamp;
        assert Decisive(db, all, m);
      }
    } else {
      var n :| n in ms && Decisive(db, ms, n) && mid.current == db.current[v := Quantised(n)];
      if Fresh(mid, m) {
        assert Decisive(db, all, m);
        assert after == db.current[v := Quantised(m)];
      } else {
        assert Decisive(db, all, n);
      }
    }
  }

  lemma StreamGrows(front: seq<GPSMessage>, m: GPSMessage)
    ensures Stream(front + [m]) == Stream(front) + {m}
  {
  }

  /** A delivery run to an active vehicle keeps the database sound. */
  lemma {:induction false} DeliverySound(db: Db, v: int, ms: seq<GPSMessage>)
    requires Sound(db) && Active(db, v) && AllFor(ms, v)
    ensures Sound(IngestAll(db, ms)) && IngestAll(db, ms).vehicles == db.vehicles
  {
    if ms != [] {
      DeliverySound(db, v, ms[..|ms| - 1]);
      IngestOne(IngestAll(db, ms[..|ms| - 1]), ms[|ms| - 1]);
    }
  }

  function QuantisedAll(ms: seq<GPSMessage>): set<Fix> {
    set m | m in ms :: Quantised(m)
  }

  lemma QuantisedGrows(front: seq<GPSMessage>, m: GPSMessage)
    ensures QuantisedAll(front + [m]) == QuantisedAll(front) + {Quantised(m)}
  {
    assert forall n :: n in front + [m] <==> n in front || n == m;
  }

  /** And it stores every message: history keeps everything. */
  lemma {:induction false} DeliveryStores(db: Db, v: int, ms: seq<GPSMessage>)
    requires Sound(db) && Active(db, v) && AllFor(ms, v)
    ensures |IngestAll(db, ms).points| == |db.points| + |ms|
    ensures FixesOf(IngestAll(db, ms).points, v) == FixesOf(db.points, v) + QuantisedAll(ms)
  {
    if ms != [] {
      var front, m := ms[..|ms| - 1], ms[|ms| - 1];
      DeliveryStores(db, v, front);
      var mid := IngestAll(db, front);
      var p := DeliveryAppends(db, v, front, m);
      hide FixesOf, QuantisedAll, Ingest, AllFor, Sound;
      FixesGrow(mid.points, p);
      assert ms == front + [m];
      QuantisedGrows(front, m);
    }
  }

  lemma DeliveryAppends(db: Db, v: int, front: seq<GPSMessage>, m: GPSMessage) returns (p: GpsPoint)
    requires Sound(db) && Active(db, v) && AllFor(front, v) && m.vehicleId == v
    ensures p.vehicleId == v && p.fix == Quantised(m)
    ensures Ingest(IngestAll(db, front), m).points == IngestAll(db, front).points + [p]
  {
    var mid := IngestAll(db, front);
    p := GpsPoint(mid.nextPoint, v, Quantised(m));
    DeliverySound(db, v, front);
    IngestOne(mid, m);
  }

  lemma FixesGrow(points: seq<GpsPoint>, p: GpsPoint)
    ensures FixesOf(points + [p], p.vehicleId) == FixesOf(points, p.vehicleId) + {p.fix}
  {
    var all, v := points + [p], p.vehicleId;
    forall f | f in FixesOf(points, v) + {p.fix} ensures f in FixesOf(all, v) {
      if f == p.fix {
        assert all[|points|].fix == f;
      } else {
        var i :| 0 <= i < |points| && points[i].vehicleId == v && points[i].fix == f;
        assert all[i].fix == f;
      }
    }
  }

  lemma {:induction false} DeliveryOutcome(db: Db, v: int, ms: seq<GPSMessage>)
    requires Sound(db) && Active(db, v) && AllFor(ms, v)
    ensures Settled(db, v, Stream(ms), IngestAll(db, ms).current)
  {
    if ms != [] {
      var front, m := ms[..|ms| - 1], ms[|ms| - 1];
      DeliveryOutcome(db, v, front);
      var mid := IngestAll(db, front);
      assert Ingest(mid, m).current ==
             if Fresh(mid, m) then mid.current[v := Quantised(m)] else mid.current by {
        DeliverySound(db, v, front);
        IngestOne(mid, m);
      }
      StreamGrows(front, m);
      assert ms == front + [m];
      SettledStep(db, v, Stream(front), mid, m, Ingest(mid, m).current);
    }
  }

  /** Two runs with the same set of messages, in any order and with any repetitions, leave the
      same current time. */
  lemma SameTimeInAnyOrder(db: Db, v: int, ms: seq<GPSMessage>, ns: seq<GPSMessage>)
    requires Sound(db) && Active(db, v) && AllFor(ms, v) && AllFor(ns, v) && Stream(ms) == Stream(ns)
    ensures IngestAll(db, ms).current.Keys == IngestAll(db, ns).current.Keys
    ensures v in IngestAll(db, ms).current ==>
              IngestAll(db, ms).current[v].recordedAt == IngestAll(db, ns).current[v].recordedAt
  {
    DeliveryOutcome(db, v, ms);
    DeliveryOutcome(db, v, ns);
  }

  lemma {:induction false} FirstOfTiesWins(db: Db, v: int, m: GPSMessage, ms: seq<GPSMessage>)
    requires Sound(db) && Active(db, v) && AllFor([m] + ms, v) && Fresh(db, m)
    requires forall n | n in ms :: n.timestamp <= m.timestamp
    ensures IngestAll(db, [m] + ms).current == db.current[v := Quantised(m)]
    ensures Active(IngestAll(db, [m] + ms), v)
  {
    var all := [m] + ms;
    if ms == [] {
      assert all[..0] == [];
    } else {
      var front, n := ms[..|ms| - 1], ms[|ms| - 1];
      assert all[..|all| - 1] == [m] + front;
      assert AllFor([m] + front, v) by {
        forall i | 0 <= i < |[m] + front| ensures ([m] + front)[i].vehicleId == v {
          assert ([m] + front)[i] == all[i];
        }
      }
      FirstOfTiesWins(db, v, m, front);
      assert all[|all| - 1] == n && n in ms;
    }
  }

  /** The order never matters: every two runs with these messages leave the same current row. */
  ghost predicate OrderFree(db: Db, v: int, messages: set<GPSMessage>) {
    forall ms, ns | AllFor(ms, v) && AllFor(ns, v) && Stream(ms) == messages && Stream(ns) == messages ::
      IngestAll(db, ms).current == IngestAll(db, ns).current
  }

  lemma Listing(s: set<GPSMessage>) returns (ms: seq<GPSMessage>)
    ensures Stream(ms) == s
  {
    if s == {} {
      ms := [];
    } else {
      var m :| m in s;
      var rest := Listing(s - {m});
      ms := rest + [m];
      assert Stream(ms) == Stream(rest) + {m};
    }
  }

  /** A decisive message delivered first becomes the current row and stays it. */
  lemma DecisiveFirst(db: Db, v: int, messages: set<GPSMessage>, m: GPSMessage, ms: seq<GPSMessage>)
    requires Sound(db) && Active(db, v) && forall k | k in messages :: k.vehicleId == v
    requires Decisive(db, messages, m) && Stream(ms) == messages
    ensures Stream([m] + ms) == messages && AllFor([m] + ms, v)
    ensures IngestAll(db, [m] + ms).current == db.current[v := Quantised(m)]
  {
    assert forall k :: k in ms <==> k in Stream(ms);
    assert forall k :: k in [m] + ms <==> k == m || k in ms;
    AllInStream([m] + ms, v);
    FirstOfTiesWins(db, v, m, ms);
  }

  /** Delivery order is irrelevant exactly when all decisive messages store the same fix; in
      particular when different fixes carry different timestamps. */
  lemma OrderFreeExactly(db: Db, v: int, messages: set<GPSMessage>)
    requires Sound(db) && Active(db, v) && forall m | m in messages :: m.vehicleId == v
    ensures OrderFree(db, v, messages) <==>
              forall m, n | Decisive(db, messages, m) && Decisive(db, messages, n) :: Quantised(m) == Quantised(n)
  {
    if OrderFree(db, v, messages) {
      forall m, n | Decisive(db, messages, m) && Decisive(db, messages, n) ensures Quantised(m) == Quantised(n) {
        var ms := Listing(messages);
        DecisiveFirst(db, v, messages, m, ms);
        DecisiveFirst(db, v, messages, n, ms);
        assert db.current[v := Quantised(m)][v] == db.current[v := Quantised(n)][v];
      }
    }
    if forall m, n | Decisive(db, messages, m) && Decisive(db, messages, n) :: Quantised(m) == Quantised(n) {
      forall ms, ns | AllFor(ms, v) && AllFor(ns, v) && Stream(ms) == messages && Stream(ns) == messages
        ensures IngestAll(db, ms).current == IngestAll(db, ns).current
      {
        DeliveryOutcome(db, v, ms);
        DeliveryOutcome(db, v, ns);
      }
    }
  }

  /** And it can matter: two messages of the same instant leave whichever came first. */
  lemma OrderCanMatter()
    ensures exists db: Db, m: GPSMessage, n: GPSMessage ::
              && Sound(db) && Active(db, m.vehicleId) && m.vehicleId == n.vehicleId && m.timestamp == n.timestamp
              && IngestAll(db, [m, n]).current != IngestAll(db, [n, m]).current
  {
    var db := EMPTY_DB.(vehicles := map[1 := Vehicle("BUS-001", "Bus", true)], nextVehicle := 2);
    var m, n := GPSMessage(1, 10.0, 0.0, 0.0, 30), GPSMessage(1, 20.0, 0.0, 0.0, 30);
    assert forall v :: !HasHistory(db.points, v);
    assert Sound(db);
    assert [m] + [n] == [m, n] && [n] + [m] == [n, m];
    FirstOfTiesWins(db, 1, m, [n]);
    FirstOfTiesWins(db, 1, n, [m]);
    assert map[1 := Quantised(m)][1].lat != map[1 := Quantised(n)][1].lat;
  }

  lemma AllInStream(ms: seq<GPSMessage>, v: int)
    requires forall m | m in Stream(ms) :: m.vehicleId == v
    ensures AllFor(ms, v)
  {
    forall i | 0 <= i < |ms| ensures ms[i].vehicleId == v {
      assert ms[i] in Stream(ms);
    }
  }
}
