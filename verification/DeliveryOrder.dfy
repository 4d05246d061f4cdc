/** Delivery order in the running system: one vehicle's messages among other messages, admin calls
    and seedings (app/mqtt/handler.py, client.py). */
module DeliveryOrder {
  import opened Schema
  import opened Topic
  import opened Ingestion
  import opened Seeding
  import opened System

  /** The message a step delivers, if it is a valid one for vehicle `v`. */
  function MessageFor(prefix: string, e: Event, v: int): Option<GPSMessage> {
    if !e.Deliver? then None
    else
      match Decode(prefix, e.topic, e.payload)
      case None => None
      case Some(m) => if m.vehicleId == v then Some(m) else None
  }

  /** The open transaction is one of vehicle `v`. */
  predicate OpenFor(s: Sys, v: int) {
    s.pending.Some? && s.pending.value.message.vehicleId == v
  }

  /** The vehicle stays active, each message for it is taken when it is delivered, and no transaction of
      it is lost in a crash. Nothing is said about other vehicles, and admin calls and seedings may come
      at any moment. */
  ghost predicate Attends(s: Sys, events: seq<Event>, v: int) {
    && Active(Run(s, events).db, v)
    && (events != [] ==>
          var front, e := events[..|events| - 1], events[|events| - 1];
          && Attends(s, front, v)
          && (MessageFor(s.prefix, e, v).Some? ==> Run(s, front).pending.None?)
          && (e.Crash? ==> !OpenFor(Run(s, front), v)))
  }

  /** The messages for vehicle `v` delivered in a run, as a set. */
  function Delivered(prefix: string, events: seq<Event>, v: int): set<GPSMessage> {
    if events == [] then {}
    else
      var m := MessageFor(prefix, events[|events| - 1], v);
      Delivered(prefix, events[..|events| - 1], v) + if m.Some? then {m.value} else {}
  }

  function RowsFor(messages: set<GPSMessage>): set<Fix> {
    set m | m in messages :: Quantised(m)
  }

  /** What is stored of the vehicle, or about to be. */
  function Known(s: Sys, v: int): set<Fix> {
    FixesOf(s.db.points, v) + if OpenFor(s, v) then {Quantised(s.pending.value.message)} else {}
  }

  lemma OtherFixesKept(points: seq<GpsPoint>, p: GpsPoint, v: int)
    requires p.vehicleId != v
    ensures FixesOf(points + [p], v) == FixesOf(points, v)
  {
    var all := points + [p];
    forall f | f in FixesOf(points, v) ensures f in FixesOf(all, v) {
      var i :| 0 <= i < |points| && points[i].vehicleId == v && points[i].fix == f;
      assert all[i].fix == f;
    }
  }

  lemma CommitKeepsKnown(s: Sys, v: int)
    requires Invariant(s) && Active(s.db, v) && s.pending.Some?
    ensures Known(Step(s, Commit), v) == Known(s, v)
  {
    var p := s.pending.value;
    var point := GpsPoint(s.db.nextPoint, p.message.vehicleId, Quantised(p.message));
    CommitRefusedExactly(s);
    FixesGrow(s.db.points, point);
    if p.message.vehicleId != v {
      OtherFixesKept(s.db.points, point, v);
    }
  }

  /** Outside ingestion, a step that leaves an active vehicle active is no wipe and stores nothing. */
  lemma ActiveMeansNoWipe(s: Sys, e: Event, v: int)
    requires Active(Step(s, e).db, v)
    ensures !e.Truncated?
  {
  }

  lemma OthersStoreNothing(s: Sys, e: Event)
    requires Invariant(s) && !e.Truncated? && !e.Commit?
    ensures Step(s, e).db.points == s.db.points
  {
    if e.Seeded? {
      SeedKeeps(s.db);
    }
  }

  lemma StepKnows(s: Sys, e: Event, v: int)
    requires Invariant(s) && Active(s.db, v) && Active(Step(s, e).db, v)
    requires (MessageFor(s.prefix, e, v).Some? ==> s.pending.None?) && (e.Crash? ==> !OpenFor(s, v))
    ensures var m := MessageFor(s.prefix, e, v);
            Known(Step(s, e), v) == Known(s, v) + if m.Some? then {Quantised(m.value)} else {}
  {
    ActiveMeansNoWipe(s, e, v);
    if e.Commit? {
      if s.pending.Some? {
        CommitKeepsKnown(s, v);
      }
    } else {
      OthersStoreNothing(s, e);
    }
  }

  lemma RowsForMore(messages: set<GPSMessage>, m: GPSMessage)
    ensures RowsFor(messages + {m}) == RowsFor(messages) + {Quantised(m)}
  {
  }

  lemma {:induction false} AttendsNoWipe(s: Sys, events: seq<Event>, v: int)
    requires Attends(s, events, v)
    ensures NoWipe(events)
  {
    if events != [] {
      var front := events[..|events| - 1];
      AttendsNoWipe(s, front, v);
      ActiveMeansNoWipe(Run(s, front), events[|events| - 1], v);
    }
  }

  /** The last step of a run, with all that is known of the state it meets. */
  lemma LastStepKnows(s: Sys, events: seq<Event>, v: int)
    requires Invariant(s) && Attends(s, events, v) && events != []
    ensures var front := events[..|events| - 1];
            var m := MessageFor(s.prefix, events[|events| - 1], v);
            Known(Run(s, events), v) == Known(Run(s, front), v) + if m.Some? then {Quantised(m.value)} else {}
  {
    hide Invariant, Step, Known, Active, MessageFor;
    var front := events[..|events| - 1];
    RunKeepsInvariant(s, front);
    PrefixFixed(s, front);
    AttendsActive(s, front, v);
    StepKnows(Run(s, front), events[|events| - 1], v);
  }

  lemma {:induction false} RunKnows(s: Sys, events: seq<Event>, v: int)
    requires Invariant(s) && Attends(s, events, v)
    ensures Known(Run(s, events), v) == Known(s, v) + RowsFor(Delivered(s.prefix, events, v))
  {
    if events != [] {
      hide Invariant, Run, Known, RowsFor, MessageFor;
      var front, m := events[..|events| - 1], MessageFor(s.prefix, events[|events| - 1], v);
      RunKnows(s, front, v);
      LastStepKnows(s, events, v);
      if m.Some? {
        RowsForMore(Delivered(s.prefix, front, v), m.value);
      }
    }
  }

  lemma AttendsActive(s: Sys, events: seq<Event>, v: int)
    requires Attends(s, events, v)
    ensures Active(Run(s, events).db, v)
  {
  }

  /** A run that has delivered exactly these messages for vehicle `v`, and finished with them. */
  ghost predicate Delivers(s: Sys, events: seq<Event>, v: int, messages: set<GPSMessage>) {
    Attends(s, events, v) && !OpenFor(Run(s, events), v) && Delivered(s.prefix, events, v) == messages
  }

  /** Every message delivered is stored, and nothing else is stored of the vehicle. */
  lemma RunStoresDelivered(s: Sys, events: seq<Event>, v: int, messages: set<GPSMessage>)
    requires Invariant(s) && !OpenFor(s, v) && Delivers(s, events, v, messages)
    ensures FixesOf(Run(s, events).db.points, v) == FixesOf(s.db.points, v) + RowsFor(messages)
  {
    RunKnows(s, events, v);
  }

  /** Two runs that deliver the same messages for a vehicle, in any order, with any repetitions and with
      whatever else in between, leave it with the same current time. */
  lemma SameTimeInRuns(s: Sys, a: seq<Event>, b: seq<Event>, v: int, messages: set<GPSMessage>)
    requires Invariant(s) && !OpenFor(s, v) && Delivers(s, a, v, messages) && Delivers(s, b, v, messages)
    ensures v in Run(s, a).db.current <==> v in Run(s, b).db.current
    ensures v in Run(s, a).db.current ==>
              Run(s, a).db.current[v].recordedAt == Run(s, b).db.current[v].recordedAt
  {
    RunStoresDelivered(s, a, v, messages);
    RunStoresDelivered(s, b, v, messages);
    RunKeepsInvariant(s, a);
    RunKeepsInvariant(s, b);
    CurrentDependsOnFixSet(Run(s, a).db, Run(s, b).db, v);
  }

  /** What a run leaves as the current row: the old one, or that of a decisive message. */
  predicate RowSettled(db: Db, v: int, messages: set<GPSMessage>, current: map<int, Fix>) {
    if forall m | m in messages :: !Fresh(db, m) then Lookup(current, v) == Lookup(db.current, v)
    else exists m | m in messages :: Decisive(db, messages, m) && Lookup(current, v) == Some(Quantised(m))
  }

  lemma NothingFresh(a: Db, b: Db, v: int, messages: set<GPSMessage>)
    requires Sound(a) && Sound(b) && a.points <= b.points && (forall m | m in messages :: m.vehicleId == v)
    requires FixesOf(b.points, v) == FixesOf(a.points, v) + RowsFor(messages)
    requires forall m | m in messages :: !Fresh(a, m)
    ensures Lookup(b.current, v) == Lookup(a.current, v)
  {
    CurrentIsNewest(a, v);
    CurrentIsNewest(b, v);
    if v in a.current {
      var i :| Wins(a.points, v, i) && a.current[v] == a.points[i].fix;
      WinsStays(a.points, b.points, v, i);
      WinnerIsCurrent(b, v, i);
    }
  }

  /** What is not newer does not win. */
  lemma WinsStays(before: seq<GpsPoint>, after: seq<GpsPoint>, v: int, i: int)
    requires before <= after && Wins(before, v, i)
    requires forall f | f in FixesOf(after, v) :: f.recordedAt <= before[i].fix.recordedAt
    ensures Wins(after, v, i) && after[i] == before[i]
  {
    forall j | 0 <= j < |after| && after[j].vehicleId == v
      ensures after[j].fix.recordedAt <= before[i].fix.recordedAt
      ensures j < |before| ==> after[j] == before[j]
    {
      assert after[j].fix in FixesOf(after, v);
    }
  }

  lemma WinnerIsCurrent(db: Db, v: int, i: int)
    requires Sound(db) && Wins(db.points, v, i)
    ensures v in db.current && db.current[v] == db.points[i].fix
  {
    assert HasHistory(db.points, v);
    var j :| Wins(db.points, v, j) && db.current[v] == db.points[j].fix;
    WinnerIsUnique(db.points, v, i, j);
  }

  lemma SomeFresh(a: Db, b: Db, v: int, messages: set<GPSMessage>, newer: GPSMessage) returns (m: GPSMessage)
    requires Sound(a) && Sound(b) && (forall m | m in messages :: m.vehicleId == v)
    requires FixesOf(b.points, v) == FixesOf(a.points, v) + RowsFor(messages)
    requires newer in messages && Fresh(a, newer)
    ensures Decisive(a, messages, m) && Lookup(b.current, v) == Some(Quantised(m))
  {
    CurrentIsNewest(a, v);
    CurrentIsNewest(b, v);
    assert Quantised(newer) in RowsFor(messages);
    assert v in b.current && b.current[v].recordedAt >= newer.timestamp;
    assert b.current[v] !in FixesOf(a.points, v);
    m :| m in messages && Quantised(m) == b.current[v];
    forall n | n in messages ensures n.timestamp <= m.timestamp {
      assert Quantised(n) in RowsFor(messages);
    }
  }

  lemma {:induction false} DeliveredAreFor(prefix: string, events: seq<Event>, v: int)
    ensures forall m | m in Delivered(prefix, events, v) :: m.vehicleId == v
  {
    if events != [] {
      DeliveredAreFor(prefix, events[..|events| - 1], v);
    }
  }

  lemma RunSettles(s: Sys, events: seq<Event>, v: int, messages: set<GPSMessage>)
    requires Invariant(s) && !OpenFor(s, v) && Delivers(s, events, v, messages)
    ensures RowSettled(s.db, v, messages, Run(s, events).db.current)
  {
    var after := Run(s, events).db;
    AttendsNoWipe(s, events, v);
    RunStoresDelivered(s, events, v, messages);
    DeliveredAreFor(s.prefix, events, v);
    RunKeepsInvariant(s, events);
    HistoryAppendOnly(s, events);
    if forall m | m in messages :: !Fresh(s.db, m) {
      NothingFresh(s.db, after, v, messages);
    } else {
      var n :| n in messages && Fresh(s.db, n);
      var m := SomeFresh(s.db, after, v, messages, n);
    }
  }

  // ----- Every message can be delivered --------------------------------------------------------

  function DeliveryOf(prefix: string, m: GPSMessage): Delivery
    requires m.vehicleId >= 0
  {
    Delivery(GpsTopic(prefix, m.vehicleId), Record(m.vehicleId, m.lat, m.lng, m.speed, m.timestamp, true))
  }

  predicate Deliverable(prefix: string, v: int, m: GPSMessage) {
    '/' !in prefix && m.vehicleId == v && v <= BIGINT_MAX && InContract(m)
  }

  lemma DecodesBack(prefix: string, v: int, m: GPSMessage)
    requires Deliverable(prefix, v, m)
    ensures var d := DeliveryOf(prefix, m); Decode(prefix, d.topic, d.payload) == Some(m)
  {
    TopicRoundTrip(prefix, v);
    BigintPrints(v);
  }

  function InTurn(prefix: string, ms: seq<GPSMessage>): seq<Delivery>
    requires forall i | 0 <= i < |ms| :: ms[i].vehicleId >= 0
  {
    seq(|ms|, i requires 0 <= i < |ms| => DeliveryOf(prefix, ms[i]))
  }

  predicate AllDeliverable(prefix: string, v: int, ms: seq<GPSMessage>) {
    forall i | 0 <= i < |ms| :: Deliverable(prefix, v, ms[i])
  }

  lemma InTurnGrows(prefix: string, ms: seq<GPSMessage>)
    requires ms != [] && forall i | 0 <= i < |ms| :: ms[i].vehicleId >= 0
    ensures var d := DeliveryOf(prefix, ms[|ms| - 1]);
            Undisturbed(InTurn(prefix, ms)) ==
              Undisturbed(InTurn(prefix, ms[..|ms| - 1])) + [Deliver(d.topic, d.payload), Commit]
  {
    var ds := InTurn(prefix, ms);
    assert ds[..|ds| - 1] == InTurn(prefix, ms[..|ms| - 1]);
  }

  /** One message after the other, with nothing in between, is such a run. */
  lemma {:induction false} InTurnDelivers(s: Sys, v: int, ms: seq<GPSMessage>)
    requires Invariant(s) && s.pending.None? && Active(s.db, v) && AllDeliverable(s.prefix, v, ms)
    ensures var events := Undisturbed(InTurn(s.prefix, ms));
            && Run(s, events) == s.(db := IngestAll(s.db, ms))
            && Attends(s, events, v) && Delivered(s.prefix, events, v) == Stream(ms)
  {
    if ms != [] {
      var front, m := ms[..|ms| - 1], ms[|ms| - 1];
      hide Run, Step, Invariant, Active, Attends, Decode, DeliveryOf, Ingest, InTurn, Undisturbed, Delivered;
      assert ms == front + [m];
      InTurnGrows(s.prefix, ms);
      InTurnDelivers(s, v, front);
      DecodesBack(s.prefix, v, m);
      OneMoreDelivered(s, Undisturbed(InTurn(s.prefix, front)), v, m, IngestAll(s.db, front));
      StreamGrows(front, m);
    }
  }

  lemma OneMoreDelivered(s: Sys, events: seq<Event>, v: int, m: GPSMessage, db: Db)
    requires Run(s, events) == s.(db := db) && s.pending.None? && Attends(s, events, v) && m.vehicleId == v >= 0
    requires var d := DeliveryOf(s.prefix, m); Decode(s.prefix, d.topic, d.payload) == Some(m)
    ensures var d := DeliveryOf(s.prefix, m);
            var all := events + [Deliver(d.topic, d.payload), Commit];
            && Run(s, all) == s.(db := Ingest(db, m)) && Attends(s, all, v)
            && Delivered(s.prefix, all, v) == Delivered(s.prefix, events, v) + {m}
  {
    var d := DeliveryOf(s.prefix, m);
    AttendsActive(s, events, v);
    ReadThenCommit(s.(db := db), v, d, m);
    TwoMoreSteps(s, events, v, d, m);
  }

  /** Reading and committing one message, step by step. */
  lemma ReadThenCommit(t: Sys, v: int, d: Delivery, m: GPSMessage)
    requires t.pending.None? && Active(t.db, v) && m.vehicleId == v && Decode(t.prefix, d.topic, d.payload) == Some(m)
    ensures var read := Step(t, Deliver(d.topic, d.payload));
            && Active(read.db, v) && Active(Step(read, Commit).db, v)
            && Step(read, Commit) == t.(db := Ingest(t.db, m))
  {
  }

  lemma TwoMoreSteps(s: Sys, events: seq<Event>, v: int, d: Delivery, m: GPSMessage)
    requires Attends(s, events, v) && Run(s, events).pending.None?
    requires m.vehicleId == v && Decode(s.prefix, d.topic, d.payload) == Some(m)
    requires var read := Step(Run(s, events), Deliver(d.topic, d.payload));
             Active(read.db, v) && Active(Step(read, Commit).db, v)
    ensures var all := events + [Deliver(d.topic, d.payload), Commit];
            && Run(s, all) == Step(Step(Run(s, events), Deliver(d.topic, d.payload)), Commit)
            && Attends(s, all, v) && Delivered(s.prefix, all, v) == Delivered(s.prefix, events, v) + {m}
  {
    var read := Deliver(d.topic, d.payload);
    var most, all := events + [read], events + [read, Commit];
    assert most[..|events|] == events && all[..|most|] == most;
    assert MessageFor(s.prefix, read, v) == Some(m) && MessageFor(s.prefix, Commit, v) == None;
    hide Step, Active, Decode, MessageFor;
    RunAppends(s, events, read, Commit);
    assert Run(s, most) == Step(Run(s, events), read);
    assert Attends(s, most, v);
    assert Delivered(s.prefix, most, v) == Delivered(s.prefix, events, v) + {m};
  }

  // ----- Order in runs -------------------------------------------------------------------------

  /** Whatever run delivers these messages for the vehicle leaves it the same current row. */
  ghost predicate OrderFreeInRuns(s: Sys, v: int, messages: set<GPSMessage>) {
    forall a, b | Delivers(s, a, v, messages) && Delivers(s, b, v, messages) ::
      Lookup(Run(s, a).db.current, v) == Lookup(Run(s, b).db.current, v)
  }

  lemma DecisiveFirstInRun(s: Sys, v: int, messages: set<GPSMessage>, m: GPSMessage) returns (events: seq<Event>)
    requires Invariant(s) && s.pending.None? && Active(s.db, v)
    requires (forall k | k in messages :: Deliverable(s.prefix, v, k)) && Decisive(s.db, messages, m)
    ensures Delivers(s, events, v, messages) && Lookup(Run(s, events).db.current, v) == Some(Quantised(m))
  {
    var ms := Listing(messages);
    DecisiveFirst(s.db, v, messages, m, ms);
    forall i | 0 <= i < |[m] + ms| ensures Deliverable(s.prefix, v, ([m] + ms)[i]) {
      assert ([m] + ms)[i] in Stream([m] + ms);
    }
    InTurnDelivers(s, v, [m] + ms);
    events := Undisturbed(InTurn(s.prefix, [m] + ms));
  }

  /** In the running system too the order in which a vehicle's messages arrive is irrelevant exactly when
      all decisive ones store the same fix. */
  lemma OrderFreeInRunsExactly(s: Sys, v: int, messages: set<GPSMessage>)
    requires Invariant(s) && s.pending.None? && Active(s.db, v)
    requires forall m | m in messages :: Deliverable(s.prefix, v, m)
    ensures OrderFreeInRuns(s, v, messages) <==>
              forall m, n | Decisive(s.db, messages, m) && Decisive(s.db, messages, n) :: Quantised(m) == Quantised(n)
  {
    if OrderFreeInRuns(s, v, messages) {
      forall m, n | Decisive(s.db, messages, m) && Decisive(s.db, messages, n) ensures Quantised(m) == Quantised(n) {
        var a := DecisiveFirstInRun(s, v, messages, m);
        var b := DecisiveFirstInRun(s, v, messages, n);
      }
    }
    if forall m, n | Decisive(s.db, messages, m) && Decisive(s.db, messages, n) :: Quantised(m) == Quantised(n) {
      forall a, b | Delivers(s, a, v, messages) && Delivers(s, b, v, messages)
        ensures Lookup(Run(s, a).db.current, v) == Lookup(Run(s, b).db.current, v)
      {
        RunSettles(s, a, v, messages);
        RunSettles(s, b, v, messages);
      }
    }
  }
}
