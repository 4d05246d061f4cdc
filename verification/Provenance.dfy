/** Where stored points come from, over whole runs (app/mqtt/client.py and handler.py). */
module Provenance {
  import opened Schema
  import opened FixedPoint
  import opened Topic
  import opened Ingestion
  import opened Seeding
  import opened System

  /** The row holds the payload's numbers, to the nearest unit of each column. */
  predicate HeldBy(p: Payload, fix: Fix)
    requires p.Record?
  {
    && Rounded(p.lat * 1000000.0, fix.lat) && Rounded(p.lng * 1000000.0, fix.lng)
    && Rounded(p.speed * 100.0, fix.speed) && fix.recordedAt == p.timestamp
  }

  /** The step publishes this fix for vehicle `v`: on the topic of `v`, in a record of `v` with a zoned
      timestamp. */
  predicate Publishes(prefix: string, e: Event, v: int, fix: Fix) {
    && e.Deliver? && ParseTopic(e.topic, prefix) == Some(v)
    && e.payload.Record? && e.payload.vehicleId == v && e.payload.aware && HeldBy(e.payload, fix)
  }

  /** Step `i` of the run publishes the fix, and the vehicle is there and active at that moment. */
  ghost predicate FromStep(s: Sys, events: seq<Event>, v: int, fix: Fix, i: nat) {
    && i < |events| && Publishes(s.prefix, events[i], v, fix)
    && var db := Run(s, events[..i]).db; v in db.vehicles && db.vehicles[v].isActive
  }

  ghost predicate FromRun(s: Sys, events: seq<Event>, v: int, fix: Fix) {
    exists i: nat :: FromStep(s, events, v, fix, i)
  }

  /** Published in the run, or by the message whose transaction is open as it begins. */
  ghost predicate Sourced(s: Sys, events: seq<Event>, v: int, fix: Fix) {
    || FromRun(s, events, v, fix)
    || (s.pending.Some? && s.pending.value.message.vehicleId == v && Quantised(s.pending.value.message) == fix)
  }

  ghost predicate AllSourced(s: Sys, events: seq<Event>, points: seq<GpsPoint>) {
    forall p | p in points :: p in s.db.points || Sourced(s, events, p.vehicleId, p.fix)
  }

  ghost predicate PendingSourced(s: Sys, events: seq<Event>, pending: Option<PendingFix>) {
    pending.Some? ==> Sourced(s, events, pending.value.message.vehicleId, Quantised(pending.value.message))
  }

  lemma SourcedStays(s: Sys, events: seq<Event>, e: Event, v: int, fix: Fix)
    requires Sourced(s, events, v, fix)
    ensures Sourced(s, events + [e], v, fix)
  {
    if FromRun(s, events, v, fix) {
      var i: nat :| FromStep(s, events, v, fix, i);
      assert (events + [e])[..i] == events[..i];
      assert FromStep(s, events + [e], v, fix, i);
    }
  }

  /** A message that opens a transaction was published on its vehicle's topic while it was active. */
  lemma ReadIsPublished(t: Sys, e: Event)
    requires e.Deliver? && t.pending.None? && Step(t, e).pending.Some?
    ensures var m := Step(t, e).pending.value.message;
            && Publishes(t.prefix, e, m.vehicleId, Quantised(m))
            && m.vehicleId in t.db.vehicles && t.db.vehicles[m.vehicleId].isActive
  {
    var m := Step(t, e).pending.value.message;
    DecodedExactly(t.prefix, e.topic, e.payload, m);
    QuantisedExactly(m, Quantised(m));
  }

  lemma PendingStaysSourced(s: Sys, front: seq<Event>, e: Event)
    requires PendingSourced(s, front, Run(s, front).pending)
    ensures PendingSourced(s, front + [e], Step(Run(s, front), e).pending)
  {
    var t, events := Run(s, front), front + [e];
    var next := Step(t, e).pending;
    if next.Some? {
      var m := next.value.message;
      if e.Deliver? && t.pending.None? {
        ReadIsPublished(t, e);
        PrefixFixed(s, front);
        assert events[..|front|] == front;
        assert FromStep(s, events, m.vehicleId, Quantised(m), |front|);
      } else {
        SourcedStays(s, front, e, m.vehicleId, Quantised(m));
      }
    }
  }

  /** A step adds at most the point of the open transaction. */
  lemma StepAdds(t: Sys, e: Event)
    requires Invariant(t)
    ensures forall p | p in Step(t, e).db.points :: p in t.db.points
              || (t.pending.Some? && p.vehicleId == t.pending.value.message.vehicleId
                  && p.fix == Quantised(t.pending.value.message))
  {
    match e
    case Commit =>
      if t.pending.Some? {
        CommitRefusedExactly(t);
      }
    case Seeded => SeedKeeps(t.db);
    case _ =>
  }

  lemma {:induction false} RunIsSourced(s: Sys, events: seq<Event>)
    requires Invariant(s)
    ensures AllSourced(s, events, Run(s, events).db.points) && PendingSourced(s, events, Run(s, events).pending)
  {
    if events != [] {
      var front, e := events[..|events| - 1], events[|events| - 1];
      var t := Run(s, front);
      hide Step, Invariant, Sourced;
      assert events == front + [e];
      RunIsSourced(s, front);
      RunKeepsInvariant(s, front);
      PendingStaysSourced(s, front, e);
      StepAdds(t, e);
      forall p | p in Step(t, e).db.points ensures p in s.db.points || Sourced(s, events, p.vehicleId, p.fix) {
        if p !in s.db.points {
          SourcedStays(s, front, e, p.vehicleId, p.fix);
        }
      }
    } else {
      PendingFromStart(s);
    }
  }

  lemma PendingFromStart(s: Sys)
    ensures PendingSourced(s, [], s.pending)
  {
  }

  /** Provenance: in every reachable state each stored point was published, in a valid record, on the topic
      of its own vehicle, while this vehicle was active; and it holds what was published. */
  lemma StoredWasPublished(prefix: string, events: seq<Event>, p: GpsPoint)
    requires p in Run(Start(prefix), events).db.points
    ensures exists i: nat :: FromStep(Start(prefix), events, p.vehicleId, p.fix, i)
  {
    StartHolds(prefix);
    RunIsSourced(Start(prefix), events);
  }

  /** The step is no message for an active vehicle `v`: it comes on another topic, in a record of another
      vehicle, or while `v` is unknown or inactive. */
  predicate Unheard(prefix: string, db: Db, e: Event, v: int) {
    || !e.Deliver? || ParseTopic(e.topic, prefix) != Some(v)
    || e.payload.NotAnObject? || e.payload.vehicleId != v
    || v !in db.vehicles || !db.vehicles[v].isActive
  }

  /** Without a message on its own topic that reaches it while it is active, a vehicle gets no point. */
  lemma UnheardStoresNothing(s: Sys, events: seq<Event>, v: int, p: GpsPoint)
    requires Invariant(s) && (s.pending.Some? ==> s.pending.value.message.vehicleId != v)
    requires forall i: nat | i < |events| :: Unheard(s.prefix, Run(s, events[..i]).db, events[i], v)
    requires p in Run(s, events).db.points && p.vehicleId == v
    ensures p in s.db.points
  {
    RunIsSourced(s, events);
    forall i: nat ensures !FromStep(s, events, v, p.fix, i) {
      if i < |events| {
        assert Unheard(s.prefix, Run(s, events[..i]).db, events[i], v);
      }
    }
  }
}
