/** Paging by offset through a history that grows (app/services/tracking_service.py, get_history): when the
    pages put together are the result. */
module Paging {
  import opened Schema
  import opened Tracking

  // ----- What appended points do to a result ---------------------------------------------------

  predicate IdsAscend(points: seq<GpsPoint>) {
    forall i, j | 0 <= i < j < |points| :: points[i].id < points[j].id
  }

  predicate Appends(older: seq<GpsPoint>, newer: seq<GpsPoint>) {
    older <= newer && IdsAscend(newer)
  }

  /** Nothing appended lies in the window. */
  predicate NoneStored(older: seq<GpsPoint>, newer: seq<GpsPoint>, v: int, since: int, to: int) {
    forall i | |older| <= i < |newer| :: !InWindow(newer[i], v, since, to)
  }

  /** Nothing appended in the window is earlier than `time`. */
  predicate NoneBefore(older: seq<GpsPoint>, newer: seq<GpsPoint>, v: int, since: int, to: int, time: int) {
    forall i | |older| <= i < |newer| && InWindow(newer[i], v, since, to) :: newer[i].fix.recordedAt >= time
  }

  function TimeAt(rows: seq<GpsPoint>, i: nat): int
    requires i < |rows|
  {
    rows[i].fix.recordedAt
  }

  /** Entry by entry, `after` is not later than `before`. */
  predicate NotLater(after: seq<GpsPoint>, before: seq<GpsPoint>) {
    |before| <= |after| && forall i: nat | i < |before| :: TimeAt(after, i) <= TimeAt(before, i)
  }

  predicate SameTimes(after: seq<GpsPoint>, before: seq<GpsPoint>, k: nat)
    requires k <= |before| && k <= |after|
  {
    forall i: nat | i < k :: TimeAt(after, i) == TimeAt(before, i)
  }

  /** One point: it pushes later entries back, and so lowers the first entry that is later than it. */
  lemma OneAppended(points: seq<GpsPoint>, p: GpsPoint, v: int, since: int, to: int, k: nat)
    requires IdsAscend(points + [p]) && k <= |Rows(points, v, since, to)|
    ensures var before, after := Rows(points, v, since, to), Rows(points + [p], v, since, to);
            && NotLater(after, before)
            && |after| == |before| + (if InWindow(p, v, since, to) then 1 else 0)
            && (!InWindow(p, v, since, to) ==> after == before)
            && (InWindow(p, v, since, to) && k >= 1 && p.fix.recordedAt < TimeAt(before, k - 1) ==>
                  !SameTimes(after, before, k))
  {
    var all, before := points + [p], Rows(points, v, since, to);
    assert forall i | 0 <= i < |points| :: points[i] == all[i] && all[|points|] == p;
    MatchingGrows(points, p, v, since, to);
    RowsOlder(points, p, v, since, to);
    if InWindow(p, v, since, to) {
      var j := InsertAt(p, before);
      var after := before[..j] + [p] + before[j..];
      forall i: nat | i < |before| ensures TimeAt(after, i) <= TimeAt(before, i) {
        assert i < j ==> after[i] == before[i];
        assert i > j ==> after[i] == before[i - 1];
      }
      if k >= 1 && p.fix.recordedAt < TimeAt(before, k - 1) {
        assert j < k;
        assert Before(p, before[j]) && p.id > before[j].id;
        assert TimeAt(after, j) < TimeAt(before, j);
      }
    }
  }

  lemma LastAppended(older: seq<GpsPoint>, newer: seq<GpsPoint>) returns (front: seq<GpsPoint>, p: GpsPoint)
    requires Appends(older, newer) && older != newer
    ensures newer == front + [p] && |older| <= |front| && Appends(older, front)
  {
    front, p := newer[..|newer| - 1], newer[|newer| - 1];
  }

  /** Storing points never raises the time of an entry. */
  lemma {:induction false} TimesFall(older: seq<GpsPoint>, newer: seq<GpsPoint>, v: int, since: int, to: int)
    requires Appends(older, newer)
    ensures NotLater(Rows(newer, v, since, to), Rows(older, v, since, to))
    decreases |newer|
  {
    if older != newer {
      var front, p := LastAppended(older, newer);
      TimesFall(older, front, v, since, to);
      OneAppended(front, p, v, since, to, 0);
    }
  }

  /** The result has grown exactly when something was stored in its window. */
  lemma {:induction false} GrownExactly(older: seq<GpsPoint>, newer: seq<GpsPoint>, v: int, since: int, to: int)
    requires Appends(older, newer)
    ensures NoneStored(older, newer, v, since, to) <==> |Rows(newer, v, since, to)| == |Rows(older, v, since, to)|
    ensures NoneStored(older, newer, v, since, to) ==> Rows(newer, v, since, to) == Rows(older, v, since, to)
    decreases |newer|
  {
    if older != newer {
      var front, p := LastAppended(older, newer);
      hide Rows, InWindow;
      GrownExactly(older, front, v, since, to);
      TimesFall(older, front, v, since, to);
      OneAppended(front, p, v, since, to, 0);
      assert newer[|front|] == p && forall i | |older| <= i < |front| :: newer[i] == front[i];
    }
  }

  /** Entries keep their times only if nothing earlier than the last of them was stored. */
  lemma {:induction false} KeptTimes(older: seq<GpsPoint>, newer: seq<GpsPoint>, v: int, since: int, to: int, k: nat)
    requires Appends(older, newer) && 1 <= k <= |Rows(older, v, since, to)| <= |Rows(newer, v, since, to)|
    requires SameTimes(Rows(newer, v, since, to), Rows(older, v, since, to), k)
    ensures NoneBefore(older, newer, v, since, to, TimeAt(Rows(older, v, since, to), k - 1))
    decreases |newer|
  {
    if older != newer {
      var front, p := LastAppended(older, newer);
      var first, mid, last := Rows(older, v, since, to), Rows(front, v, since, to), Rows(newer, v, since, to);
      hide Rows, InWindow;
      TimesFall(older, front, v, since, to);
      OneAppended(front, p, v, since, to, k);
      forall i: nat | i < k ensures TimeAt(mid, i) == TimeAt(first, i) == TimeAt(last, i) {
        assert TimeAt(last, i) <= TimeAt(mid, i) <= TimeAt(first, i);
      }
      KeptTimes(older, front, v, since, to, k);
      assert newer[|front|] == p && forall i | |older| <= i < |front| :: newer[i] == front[i];
    }
  }

  /** Points that are not earlier leave the first `k` entries as they were. */
  lemma {:induction false} BehindKeeps(older: seq<GpsPoint>, newer: seq<GpsPoint>, v: int, since: int, to: int, k: nat)
    requires Appends(older, newer) && 1 <= k <= |Rows(older, v, since, to)|
    requires NoneBefore(older, newer, v, since, to, TimeAt(Rows(older, v, since, to), k - 1))
    ensures k <= |Rows(newer, v, since, to)| && Rows(newer, v, since, to)[..k] == Rows(older, v, since, to)[..k]
    decreases |newer|
  {
    if older != newer {
      var front, p := LastAppended(older, newer);
      var first, mid := Rows(older, v, since, to), Rows(front, v, since, to);
      hide Rows, InWindow;
      assert newer[|front|] == p && forall i | |older| <= i < |front| :: newer[i] == front[i];
      BehindKeeps(older, front, v, since, to, k);
      assert mid[k - 1] == mid[..k][k - 1] == first[..k][k - 1] == first[k - 1];
      assert FreshId(front, p) && DistinctIds(front);
      PagesStableExactly(front, p, v, since, to, k);
    }
  }

  /** Points stored between page requests, however many, leave the first `k` entries of a result as
      they were exactly when none in the window is earlier than the last of them. */
  lemma PrefixKeptExactly(older: seq<GpsPoint>, newer: seq<GpsPoint>, v: int, since: int, to: int, k: nat)
    requires Appends(older, newer) && 1 <= k <= |Rows(older, v, since, to)|
    ensures k <= |Rows(newer, v, since, to)|
    ensures Rows(newer, v, since, to)[..k] == Rows(older, v, since, to)[..k] <==>
              NoneBefore(older, newer, v, since, to, TimeAt(Rows(older, v, since, to), k - 1))
  {
    var before, after := Rows(older, v, since, to), Rows(newer, v, since, to);
    hide Rows;
    TimesFall(older, newer, v, since, to);
    if after[..k] == before[..k] {
      forall i: nat | i < k ensures TimeAt(after, i) == TimeAt(before, i) {
        assert after[..k][i] == before[..k][i];
      }
      KeptTimes(older, newer, v, since, to, k);
    }
    if NoneBefore(older, newer, v, since, to, TimeAt(before, k - 1)) {
      BehindKeeps(older, newer, v, since, to, k);
    }
  }

  // ----- One page after the others -------------------------------------------------------------

  /** The first `n` points of a result, or all where there are fewer. */
  function FirstPoints(rows: seq<GpsPoint>, n: nat): seq<Fix> {
    Fixes(rows[..Min(n, |rows|)])
  }

  /** No more was served than the first `k` points, and nothing that is earlier, entry by entry. */
  predicate Trails(served: seq<Fix>, rows: seq<GpsPoint>, k: nat) {
    |served| <= Min(k, |rows|) && forall i: nat | i < |served| :: TimeAt(rows, i) <= served[i].recordedAt
  }

  lemma TrailsOn(served: seq<Fix>, before: seq<GpsPoint>, after: seq<GpsPoint>, limit: nat, start: nat)
    requires Trails(served, before, start) && NotLater(after, before) && Sorted(after)
    ensures Trails(served + Fixes(Page(after, limit, start)), after, start + limit)
  {
    var page, n := Fixes(Page(after, limit, start)), |served|;
    var skipped := Min(start, |after|);
    forall i: nat | i < |served + page| ensures TimeAt(after, i) <= (served + page)[i].recordedAt {
      if i < n {
        assert TimeAt(after, i) <= TimeAt(before, i) <= served[i].recordedAt;
      } else {
        assert (served + page)[i] == page[i - n] == after[skipped + (i - n)].fix;
        assert i <= skipped + (i - n);
      }
    }
  }

  /** What is stored between two requests is harmless: nothing, or the first `k` points were all there
      and nothing is earlier than the last of them. */
  predicate Harmless(older: seq<GpsPoint>, newer: seq<GpsPoint>, v: int, since: int, to: int, k: nat) {
    NoneStored(older, newer, v, since, to)
    || (1 <= k <= |Rows(older, v, since, to)|
        && NoneBefore(older, newer, v, since, to, TimeAt(Rows(older, v, since, to), k - 1)))
  }

  lemma NextPageRight(served: seq<Fix>, older: seq<GpsPoint>, newer: seq<GpsPoint>, v: int, since: int, to: int,
                      limit: nat, start: nat)
    requires Appends(older, newer)
    requires served == FirstPoints(Rows(older, v, since, to), start) && Harmless(older, newer, v, since, to, start)
    ensures var rows := Rows(newer, v, since, to);
            served + Fixes(Page(rows, limit, start)) == FirstPoints(rows, start + limit)
  {
    hide Rows;
    PageExtends(Rows(newer, v, since, to), limit, start);
    if NoneStored(older, newer, v, since, to) {
      GrownExactly(older, newer, v, since, to);
    } else {
      BehindKeeps(older, newer, v, since, to, start);
    }
  }

  /** The lengths leave room for one case only: what was served has the length it should have. */
  lemma ServedLength(served: seq<Fix>, before: seq<GpsPoint>, after: seq<GpsPoint>, limit: nat, start: nat)
    requires Trails(served, before, start) && NotLater(after, before)
    requires served + Fixes(Page(after, limit, start)) == FirstPoints(after, start + limit)
    ensures |served| == Min(start, |before|) == Min(start, |after|)
    ensures served == FirstPoints(after, start) && SameTimes(after, before, |served|)
  {
    var page, first := Fixes(Page(after, limit, start)), FirstPoints(after, start + limit);
    assert |served| + |page| == |first|;
    forall i: nat | i < |served| ensures served[i] == after[i].fix && TimeAt(after, i) == TimeAt(before, i) {
      assert served[i] == (served + page)[i] == first[i] == after[i].fix;
      assert TimeAt(after, i) <= TimeAt(before, i) <= served[i].recordedAt;
    }
  }

  lemma NextPageWasRight(served: seq<Fix>, older: seq<GpsPoint>, newer: seq<GpsPoint>, v: int, since: int, to: int,
                         limit: nat, start: nat)
    requires Appends(older, newer) && start >= 1 && Trails(served, Rows(older, v, since, to), start)
    requires var rows := Rows(newer, v, since, to);
             served + Fixes(Page(rows, limit, start)) == FirstPoints(rows, start + limit)
    ensures served == FirstPoints(Rows(older, v, since, to), start) && Harmless(older, newer, v, since, to, start)
  {
    var before, after := Rows(older, v, since, to), Rows(newer, v, since, to);
    hide Rows;
    TimesFall(older, newer, v, since, to);
    ServedLength(served, before, after, limit, start);
    if |before| < start {
      GrownExactly(older, newer, v, since, to);
    } else {
      KeptTimes(older, newer, v, since, to, start);
      BehindKeeps(older, newer, v, since, to, start);
    }
  }

  /** One more page keeps a walk right exactly when it was right and what was stored since is harmless. */
  lemma NextPageExactly(served: seq<Fix>, older: seq<GpsPoint>, newer: seq<GpsPoint>, v: int, since: int, to: int,
                        limit: nat, start: nat)
    requires Appends(older, newer) && start >= 1 && Trails(served, Rows(older, v, since, to), start)
    ensures var rows := Rows(newer, v, since, to);
            served + Fixes(Page(rows, limit, start)) == FirstPoints(rows, start + limit)
            <==> served == FirstPoints(Rows(older, v, since, to), start) && Harmless(older, newer, v, since, to, start)
  {
    hide Rows, Fixes, Page, FirstPoints, Harmless, Trails, Appends;
    var rows := Rows(newer, v, since, to);
    if served + Fixes(Page(rows, limit, start)) == FirstPoints(rows, start + limit) {
      NextPageWasRight(served, older, newer, v, since, to, limit, start);
    }
    if served == FirstPoints(Rows(older, v, since, to), start) && Harmless(older, newer, v, since, to, start) {
      NextPageRight(served, older, newer, v, since, to, limit, start);
    }
  }

  // ----- A walk over a changing database -------------------------------------------------------

  /** One page request: the database it meets, and the time. */
  datatype Visit = Visit(db: Db, now: int)

  predicate AskFor(visits: seq<Visit>, u: int, v: int) {
    forall i | 0 <= i < |visits| :: u in visits[i].db.users && HoldsVehicle(visits[i].db.users[u], v)
  }

  /** The points of page `i`, asked for on one visit. */
  function PageServed(visit: Visit, u: int, params: HistoryParams, i: nat): seq<Fix>
    requires params.Valid() && u in visit.db.users && visit.db.users[u].vehicleId.Some?
  {
    GetHistory(visit.db, visit.db.users[u], params.(offset := PageStart(params.limit, i)), visit.now).value.points
  }

  /** The pages of a walk one after the other, page `i` taken on visit `i`. */
  function ServedOver(visits: seq<Visit>, u: int, v: int, params: HistoryParams): seq<Fix>
    requires params.Valid() && AskFor(visits, u, v)
  {
    if visits == [] then []
    else
      var n := |visits| - 1;
      ServedOver(visits[..n], u, v, params) + PageServed(visits[n], u, params, n)
  }

  /** Whatever is stored in the window after a page finds the page full, and is not earlier than the
      last point of it. */
  predicate StoredBehind(older: seq<GpsPoint>, newer: seq<GpsPoint>, v: int, since: int, to: int,
                         limit: int, page: seq<Fix>)
    requires limit >= 1
  {
    forall i | |older| <= i < |newer| && InWindow(newer[i], v, since, to) ::
      |page| == limit && newer[i].fix.recordedAt >= page[|page| - 1].recordedAt
  }

  predicate PageUndisturbed(visits: seq<Visit>, u: int, v: int, params: HistoryParams, i: nat)
    requires params.Valid() && AskFor(visits, u, v) && params.dateFrom.Some? && params.dateTo.Some?
    requires i + 1 < |visits|
  {
    StoredBehind(visits[i].db.points, visits[i + 1].db.points, v, params.dateFrom.value, params.dateTo.value,
                 params.limit, PageServed(visits[i], u, params, i))
  }

  predicate WalkUndisturbed(visits: seq<Visit>, u: int, v: int, params: HistoryParams)
    requires params.Valid() && AskFor(visits, u, v) && params.dateFrom.Some? && params.dateTo.Some?
  {
    forall i: nat | i + 1 < |visits| :: PageUndisturbed(visits, u, v, params, i)
  }

  /** History only grows from one visit to the next. */
  predicate VisitsInOrder(visits: seq<Visit>) {
    && visits != [] && IdsAscend(visits[0].db.points)
    && forall i: nat | i + 1 < |visits| :: Appends(visits[i].db.points, visits[i + 1].db.points)
  }

  /** A client asks page after page for one window of its vehicle's history. */
  predicate Walks(visits: seq<Visit>, u: int, v: int, params: HistoryParams) {
    && params.Valid() && params.dateFrom.Some? && params.dateTo.Some?
    && VisitsInOrder(visits) && AskFor(visits, u, v)
  }

  function LastRows(visits: seq<Visit>, v: int, params: HistoryParams): seq<GpsPoint>
    requires visits != [] && params.dateFrom.Some? && params.dateTo.Some?
  {
    Rows(visits[|visits| - 1].db.points, v, params.dateFrom.value, params.dateTo.value)
  }

  lemma PageServedIs(visit: Visit, u: int, v: int, params: HistoryParams, i: nat)
    requires params.Valid() && params.dateFrom.Some? && params.dateTo.Some?
    requires u in visit.db.users && HoldsVehicle(visit.db.users[u], v)
    ensures PageServed(visit, u, params, i) ==
              Fixes(Page(LastRows([visit], v, params), params.limit, PageStart(params.limit, i)))
  {
    OnePage(visit.db, visit.db.users[u], params, visit.now, PageStart(params.limit, i));
  }

  /** In terms of the page served: full means that the first points were all there. */
  lemma HarmlessIs(older: seq<GpsPoint>, newer: seq<GpsPoint>, v: int, since: int, to: int,
                   limit: nat, start: nat, page: seq<Fix>)
    requires limit >= 1 && page == Fixes(Page(Rows(older, v, since, to), limit, start))
    ensures StoredBehind(older, newer, v, since, to, limit, page) <==>
              Harmless(older, newer, v, since, to, start + limit)
  {
    var rows, k := Rows(older, v, since, to), start + limit;
    hide Rows, InWindow;
    assert |page| == limit <==> k <= |rows|;
    assert k <= |rows| ==> page[|page| - 1].recordedAt == TimeAt(rows, k - 1);
  }

  lemma FrontWalks(visits: seq<Visit>, u: int, v: int, params: HistoryParams)
    requires Walks(visits, u, v, params) && |visits| >= 2
    ensures var n := |visits| - 1;
            && Walks(visits[..n], u, v, params)
            && (WalkUndisturbed(visits, u, v, params) <==>
                  WalkUndisturbed(visits[..n], u, v, params) && PageUndisturbed(visits, u, v, params, n - 1))
  {
    hide StoredBehind, PageServed, Appends;
    var n := |visits| - 1;
    var front := visits[..n];
    forall i: nat | i + 1 < n
      ensures Appends(front[i].db.points, front[i + 1].db.points)
    {
      assert Appends(visits[i].db.points, visits[i + 1].db.points);
    }
    assert Walks(front, u, v, params);
    forall i: nat | i + 1 < n
      ensures PageUndisturbed(front, u, v, params, i) <==> PageUndisturbed(visits, u, v, params, i)
    {
    }
  }

  lemma FirstPage(visits: seq<Visit>, u: int, v: int, params: HistoryParams)
    requires Walks(visits, u, v, params) && |visits| == 1
    ensures ServedOver(visits, u, v, params) == FirstPoints(LastRows(visits, v, params), PageStart(params.limit, 1))
    ensures Trails(ServedOver(visits, u, v, params), LastRows(visits, v, params), PageStart(params.limit, 1))
  {
    var rows := LastRows(visits, v, params);
    assert visits == [visits[0]];
    hide Rows;
    PageServedIs(visits[0], u, v, params, 0);
    assert rows[..0] == [];
    PageExtends(rows, params.limit, 0);
    assert ServedOver(visits[..0], u, v, params) == [];
  }

  lemma LastPage(visits: seq<Visit>, u: int, v: int, params: HistoryParams)
    requires Walks(visits, u, v, params)
    ensures var n := |visits| - 1;
            ServedOver(visits, u, v, params) ==
              ServedOver(visits[..n], u, v, params)
              + Fixes(Page(LastRows(visits, v, params), params.limit, PageStart(params.limit, n)))
  {
    var n := |visits| - 1;
    PageServedIs(visits[n], u, v, params, n);
  }

  /** Whatever is stored meanwhile, a walk never serves too much and never too early. */
  lemma {:induction false} WalkTrails(visits: seq<Visit>, u: int, v: int, params: HistoryParams)
    requires Walks(visits, u, v, params)
    ensures Trails(ServedOver(visits, u, v, params), LastRows(visits, v, params), PageStart(params.limit, |visits|))
  {
    var n := |visits| - 1;
    if n == 0 {
      FirstPage(visits, u, v, params);
    } else {
      var older, newer := visits[n - 1].db.points, visits[n].db.points;
      assert Appends(visits[n - 1].db.points, visits[n - 1 + 1].db.points);
      FrontWalks(visits, u, v, params);
      hide Rows, PageServed, Appends, Trails;
      WalkTrails(visits[..n], u, v, params);
      LastPage(visits, u, v, params);
      TimesFall(older, newer, v, params.dateFrom.value, params.dateTo.value);
      LastRowsSorted(visits, v, params);
      TrailsOn(ServedOver(visits[..n], u, v, params), LastRows(visits[..n], v, params), LastRows(visits, v, params),
               params.limit, PageStart(params.limit, n));
    }
  }

  lemma LastRowsSorted(visits: seq<Visit>, v: int, params: HistoryParams)
    requires VisitsInOrder(visits) && params.dateFrom.Some? && params.dateTo.Some?
    ensures Sorted(LastRows(visits, v, params))
  {
    var n := |visits| - 1;
    assert n > 0 ==> Appends(visits[n - 1].db.points, visits[n - 1 + 1].db.points);
    RowsAreWindow(visits[n].db.points, v, params.dateFrom.value, params.dateTo.value);
  }

  lemma PageUndisturbedIs(visits: seq<Visit>, u: int, v: int, params: HistoryParams, i: nat)
    requires Walks(visits, u, v, params) && i + 1 < |visits|
    ensures PageUndisturbed(visits, u, v, params, i) <==>
              Harmless(visits[i].db.points, visits[i + 1].db.points, v, params.dateFrom.value, params.dateTo.value,
                       PageStart(params.limit, i + 1))
  {
    hide Rows, Harmless, StoredBehind, Page, Fixes, PageServed;
    PageServedIs(visits[i], u, v, params, i);
    HarmlessIs(visits[i].db.points, visits[i + 1].db.points, v, params.dateFrom.value, params.dateTo.value,
               params.limit, PageStart(params.limit, i), PageServed(visits[i], u, params, i));
  }

  /** The pages put together are the first points of the last result: none is repeated or skipped.
      `PageStart(limit, n)` is `n * limit`. */
  predicate ServesFirst(visits: seq<Visit>, u: int, v: int, params: HistoryParams)
    requires params.Valid() && AskFor(visits, u, v) && visits != [] && params.dateFrom.Some? && params.dateTo.Some?
  {
    ServedOver(visits, u, v, params) == FirstPoints(LastRows(visits, v, params), PageStart(params.limit, |visits|))
  }

  /** The step of the induction: the walk is right exactly when it was right so far and what was stored
      since was stored behind the page before. */
  lemma WalkStep(visits: seq<Visit>, u: int, v: int, params: HistoryParams)
    requires Walks(visits, u, v, params) && |visits| >= 2 && Walks(visits[..|visits| - 1], u, v, params)
    ensures ServesFirst(visits, u, v, params) <==>
              ServesFirst(visits[..|visits| - 1], u, v, params)
              && PageUndisturbed(visits, u, v, params, |visits| - 2)
  {
    var n := |visits| - 1;
    var front := visits[..n];
    assert Appends(visits[n - 1].db.points, visits[n - 1 + 1].db.points);
    hide VisitsInOrder, AskFor, Rows, ServedOver, Appends, Trails, PageUndisturbed, Harmless, FirstPoints, Page, Fixes;
    LastPage(visits, u, v, params);
    WalkTrails(front, u, v, params);
    PageUndisturbedIs(visits, u, v, params, n - 1);
    NextPageExactly(ServedOver(front, u, v, params), visits[n - 1].db.points, visits[n].db.points, v,
                    params.dateFrom.value, params.dateTo.value, params.limit, PageStart(params.limit, n));
  }

  /** A walk over a changing database, page `i` asked for on visit `i`: the pages put together are the
      first points of the last result exactly when every point stored in the window meanwhile found the
      page before it full and was not earlier than the last point of it. */
  lemma {:induction false} PagingExactly(visits: seq<Visit>, u: int, v: int, params: HistoryParams)
    requires Walks(visits, u, v, params)
    ensures ServesFirst(visits, u, v, params) <==> WalkUndisturbed(visits, u, v, params)
  {
    if |visits| == 1 {
      FirstPage(visits, u, v, params);
    } else {
      FrontWalks(visits, u, v, params);
      hide Walks, ServesFirst, PageUndisturbed, WalkUndisturbed;
      WalkStep(visits, u, v, params);
      PagingExactly(visits[..|visits| - 1], u, v, params);
    }
  }

  /** The full page matters: when a page comes short and a newer point is stored after it, the next
      page is empty all the same, and the new point is skipped. */
  lemma ShortPageSkips(points: seq<GpsPoint>, p: GpsPoint, v: int, since: int, to: int, limit: nat, start: nat)
    requires DistinctIds(points) && FreshId(points, p) && InWindow(p, v, since, to)
    requires var rows := Rows(points, v, since, to);
             |rows| < start + limit && forall i | 0 <= i < |rows| :: rows[i].fix.recordedAt <= p.fix.recordedAt
    ensures Rows(points + [p], v, since, to) == Rows(points, v, since, to) + [p]
    ensures Page(Rows(points + [p], v, since, to), limit, start + limit) == []
  {
    MatchingGrows(points, p, v, since, to);
    RowsOlder(points, p, v, since, to);
  }
}
