/** The two tables the Datadog adapter scripts share: the adapter settings
    (`DatadogAdapter`) and the monitoring history
    (`DatadogMonitoringHistory`), with the status codes both scripts use.
    The database is a `Store` object whose rows the scripts rewrite in
    place; each write is one transaction that either commits or leaves the
    tables as they were. */
module Database {
  import opened Outcomes
  import opened Calendar

  const PROCESSING := 1
  const PROCESSED := 2
  const SERVER_ERROR := 3
  const FORCE_PROCESSED := 4

  /** A row of the adapter table.  `responseKeys` are the
      `datadog_response_key` values of the adapter's match-info rows, in
      `datadog_match_id` order. */
  datatype Adapter = Adapter(
    id: int,
    statusFlag: int,
    lastUpdate: DateTime,
    ruleTypeId: int,
    matchEvtime: string,
    matchInstance: string,
    responseKeys: seq<string>)

  /** A row of the history table; its primary key is its position. */
  datatype HistoryRow = HistoryRow(
    adapterId: int,
    lastchange: DateTime,
    status: int,
    updateHost: string,
    lastUpdate: DateTime,
    user: string)

  /** The position of the adapter with key `id`, if there is one. */
  function AdapterIndex(adapters: seq<Adapter>, id: int): (r: Option<nat>)
    ensures r.None? <==> forall i :: 0 <= i < |adapters| ==> adapters[i].id != id
    ensures r.Some? ==> r.value < |adapters| && adapters[r.value].id == id
  {
    if adapters == [] then None
    else if adapters[0].id == id then Some(0)
    else match AdapterIndex(adapters[1..], id)
      case None => None
      case Some(k) => Some(k + 1)
  }

  /** `DatadogAdapter.objects.get(pk=id)`: the adapter with that key, or
      none (`DoesNotExist`). */
  function FindAdapter(adapters: seq<Adapter>, id: int): (r: Option<Adapter>)
    ensures r.None? <==> forall i :: 0 <= i < |adapters| ==> adapters[i].id != id
    ensures r.Some? ==> r.value.id == id && r.value in adapters
  {
    match AdapterIndex(adapters, id)
      case None => None
      case Some(k) => Some(adapters[k])
  }

  /** The order of `datetime` values: `a` is strictly earlier than `b`. */
  predicate Before(a: DateTime, b: DateTime)
  {
    if a.year != b.year then a.year < b.year
    else if a.month != b.month then a.month < b.month
    else if a.day != b.day then a.day < b.day
    else if a.hour != b.hour then a.hour < b.hour
    else if a.minute != b.minute then a.minute < b.minute
    else a.second < b.second
  }

  predicate ProcessedFor(row: HistoryRow, id: int)
  {
    row.adapterId == id && row.status == PROCESSED
  }

  /** The query of lines 437-439 of the worker: the `datadog_lastchange` of
      the latest PROCESSED history row of the adapter.  Only that one
      field is used, so rows tied on it are interchangeable and the model
      does not pick among them. */
  function LatestProcessed(history: seq<HistoryRow>, id: int): (r: Option<DateTime>)
    ensures r.None? <==> forall i :: 0 <= i < |history| ==> !ProcessedFor(history[i], id)
    ensures r.Some? ==>
      exists i :: 0 <= i < |history| && ProcessedFor(history[i], id) && history[i].lastchange == r.value
    ensures r.Some? ==>
      forall i :: 0 <= i < |history| && ProcessedFor(history[i], id) ==> !Before(r.value, history[i].lastchange)
  {
    if history == [] then None
    else
      var last := history[|history| - 1];
      var earlier := LatestProcessed(history[..|history| - 1], id);
      assert forall i :: 0 <= i < |history| - 1 ==> history[..|history| - 1][i] == history[i];
      if !ProcessedFor(last, id) then earlier
      else if earlier.Some? && !Before(earlier.value, last.lastchange) then earlier
      else Some(last.lastchange)
  }

  /** The optimistic lock of `execute` (lines 206-211): the adapter with key
      `id` is marked busy and stamped `at`, provided its stamp is still the
      one the worker read (`seen`); otherwise the table stays as it was. */
  function Locked(adapters: seq<Adapter>, id: int, seen: DateTime, at: DateTime): (r: seq<Adapter>)
    ensures |r| == |adapters|
  {
    match AdapterIndex(adapters, id)
      case None => adapters
      case Some(k) =>
        if adapters[k].lastUpdate == seen then adapters[k := adapters[k].(statusFlag := 1, lastUpdate := at)]
        else adapters
  }

  /** The lock changes at most the adapter it names: when that adapter's
      stamp is the one read it is marked busy with the new stamp and keeps
      its other fields; otherwise the table is unchanged; other rows never
      change. */
  lemma LockedMeaning(adapters: seq<Adapter>, id: int, seen: DateTime, at: DateTime)
    ensures var r := Locked(adapters, id, seen, at);
      forall i :: 0 <= i < |adapters| && adapters[i].id != id ==> r[i] == adapters[i]
    ensures var r := Locked(adapters, id, seen, at);
      FindAdapter(adapters, id).Some? && FindAdapter(adapters, id).value.lastUpdate == seen ==>
        FindAdapter(r, id) == Some(FindAdapter(adapters, id).value.(statusFlag := 1, lastUpdate := at))
    ensures var r := Locked(adapters, id, seen, at);
      !(FindAdapter(adapters, id).Some? && FindAdapter(adapters, id).value.lastUpdate == seen) ==> r == adapters
  {
    var r := Locked(adapters, id, seen, at);
    match AdapterIndex(adapters, id)
      case None =>
      case Some(k) =>
        if adapters[k].lastUpdate == seen {
          assert r == adapters[k := adapters[k].(statusFlag := 1, lastUpdate := at)];
          AdapterIndexStable(adapters, id, k, r);
        }
  }

  /** Replacing the row at the position of key `id` by one with the same key
      keeps that position the first with that key. */
  lemma AdapterIndexStable(adapters: seq<Adapter>, id: int, k: nat, r: seq<Adapter>)
    requires AdapterIndex(adapters, id) == Some(k)
    requires |r| == |adapters| && r[k].id == id
    requires forall i :: 0 <= i < |adapters| && i != k ==> r[i] == adapters[i]
    ensures AdapterIndex(r, id) == Some(k)
  {
    AdapterIndexFirst(adapters, id);
    AdapterIndexFirst(r, id);
  }

  /** The position found is the first with that key. */
  lemma {:induction false} AdapterIndexFirst(adapters: seq<Adapter>, id: int)
    ensures AdapterIndex(adapters, id).Some? ==>
      forall i :: 0 <= i < AdapterIndex(adapters, id).value ==> adapters[i].id != id
    ensures forall k :: 0 <= k < |adapters| && adapters[k].id == id && (forall i :: 0 <= i < k ==> adapters[i].id != id) ==>
      AdapterIndex(adapters, id) == Some(k)
  {
    if adapters != [] && adapters[0].id != id {
      AdapterIndexFirst(adapters[1..], id);
      assert forall k :: 1 <= k < |adapters| ==> adapters[1..][k - 1] == adapters[k];
    }
  }

  /** The point of the optimistic lock: once one worker has taken the
      adapter, a second worker holding the same earlier reading finds the
      stamp changed and leaves the row alone. */
  lemma LockTakenOnce(adapters: seq<Adapter>, id: int, seen: DateTime, at: DateTime, at2: DateTime)
    requires at != seen
    ensures Locked(Locked(adapters, id, seen, at), id, seen, at2) == Locked(adapters, id, seen, at)
  {
    var r := Locked(adapters, id, seen, at);
    match AdapterIndex(adapters, id)
      case None =>
      case Some(k) =>
        if adapters[k].lastUpdate == seen {
          AdapterIndexStable(adapters, id, k, r);
        }
  }

  /** A history row the sweep considers stuck: still PROCESSING and last
      written from this host. */
  predicate Stuck(row: HistoryRow, host: string)
  {
    row.status == PROCESSING && row.updateHost == host
  }

  /** `set_force_terminate_status` (lines 193-207 of the supervisor) as a
      function of the table: every stuck row becomes FORCE_PROCESSED and
      records the sweeping user.  The source assigns the timestamp to an
      attribute the model does not have (`last_update_datetime`), so the
      stamp stays as it was. */
  function Swept(history: seq<HistoryRow>, host: string, user: string): (r: seq<HistoryRow>)
    ensures |r| == |history|
  {
    if history == [] then []
    else
      var row := history[|history| - 1];
      Swept(history[..|history| - 1], host, user)
        + [if Stuck(row, host) then row.(status := FORCE_PROCESSED, user := user) else row]
  }

  /** After the sweep no row is stuck on this host; each stuck row was
      changed in its status and user only, and every other row is kept. */
  lemma {:induction false} SweptMeaning(history: seq<HistoryRow>, host: string, user: string)
    ensures var r := Swept(history, host, user);
      forall i :: 0 <= i < |history| ==>
        && (Stuck(history[i], host) ==> r[i] == history[i].(status := FORCE_PROCESSED, user := user))
        && (!Stuck(history[i], host) ==> r[i] == history[i])
    ensures forall i :: 0 <= i < |history| ==> !Stuck(Swept(history, host, user)[i], host)
  {
    if history != [] {
      SweptMeaning(history[..|history| - 1], host, user);
    }
  }

  /** Rows of other hosts, and rows with another status, never change. */
  lemma SweptKeepsOthers(history: seq<HistoryRow>, host: string, user: string, i: nat)
    requires i < |history|
    requires history[i].updateHost != host || history[i].status != PROCESSING
    ensures Swept(history, host, user)[i] == history[i]
  {
    SweptMeaning(history, host, user);
  }

  /** A second sweep finds nothing left to do. */
  lemma SweptIdempotent(history: seq<HistoryRow>, host: string, user: string)
    ensures Swept(Swept(history, host, user), host, user) == Swept(history, host, user)
  {
    var r := Swept(history, host, user);
    SweptMeaning(history, host, user);
    SweptMeaning(r, host, user);
  }

  /** Rewriting the row just appended leaves the table one row longer
      with the new row last. */
  lemma LastRowReplaced(history: seq<HistoryRow>, row: HistoryRow, closed: HistoryRow)
    ensures (history + [row])[|history| := closed] == history + [closed]
  {
  }

  /** The database the two scripts share. */
  class Store {
    var adapters: seq<Adapter>
    var history: seq<HistoryRow>

    /** Every stored timestamp is a datetime Python can hold. */
    ghost predicate Valid()
      reads this
    {
      && (forall i :: 0 <= i < |adapters| ==> Calendar.Valid(adapters[i].lastUpdate))
      && (forall i :: 0 <= i < |history| ==> Calendar.Valid(history[i].lastchange))
    }

    constructor (adapters: seq<Adapter>, history: seq<HistoryRow>)
      ensures this.adapters == adapters && this.history == history
    {
      this.adapters := adapters;
      this.history := history;
    }

    /** `save(force_insert=True)` of a new history row (lines 141-153 of the
        worker): the row is appended and its key returned; a write the
        database refuses leaves the table as it was and gives no key. */
    method InsertHistory(row: HistoryRow, accepted: bool) returns (pk: Option<nat>)
      requires Valid() && Calendar.Valid(row.lastchange)
      modifies this
      ensures Valid()
      ensures adapters == old(adapters)
      ensures accepted ==> history == old(history) + [row] && pk == Some(|old(history)|)
      ensures !accepted ==> history == old(history) && pk == None
    {
      if !accepted {
        return None;
      }
      pk := Some(|history|);
      history := history + [row];
    }

    /** `update_monitoring_history` (lines 165-185 of the worker): the row
        gets the final status, the new window end, this host, the stamp
        and the user, and keeps its adapter; a refused write changes
        nothing and reports failure (the source re-raises). */
    method UpdateHistory(pk: nat, status: int, lastchange: DateTime, host: string, at: DateTime, user: string, accepted: bool)
      returns (ok: bool)
      requires Valid() && Calendar.Valid(lastchange) && pk < |history|
      modifies this
      ensures Valid()
      ensures ok == accepted
      ensures adapters == old(adapters)
      ensures history == if accepted
        then old(history)[pk := HistoryRow(old(history)[pk].adapterId, lastchange, status, host, at, user)]
        else old(history)
    {
      if !accepted {
        return false;
      }
      history := history[pk := HistoryRow(history[pk].adapterId, lastchange, status, host, at, user)];
      return true;
    }

    /** The locked read-compare-write of `execute` (lines 206-211): true
        when the adapter row exists (otherwise `get` raises). */
    method MarkBusyIfUnchanged(id: int, seen: DateTime, at: DateTime) returns (found: bool)
      requires Valid() && Calendar.Valid(at)
      modifies this
      ensures Valid()
      ensures found <==> FindAdapter(old(adapters), id).Some?
      ensures history == old(history)
      ensures adapters == Locked(old(adapters), id, seen, at)
    {
      var k := AdapterIndex(adapters, id);
      if k.None? {
        return false;
      }
      if adapters[k.value].lastUpdate == seen {
        adapters := adapters[k.value := adapters[k.value].(statusFlag := 1, lastUpdate := at)];
      }
      return true;
    }

    /** The sweep (lines 189-213 of the supervisor): one transaction over
        the stuck rows of this host, row by row; when the database refuses
        it the whole transaction is rolled back and nothing changes. */
    method ForceTerminate(host: string, user: string, accepted: bool)
      requires Valid()
      modifies this
      ensures Valid()
      ensures adapters == old(adapters)
      ensures history == if accepted then Swept(old(history), host, user) else old(history)
    {
      var rows: seq<HistoryRow> := [];
      var i := 0;
      while i < |history|
        invariant 0 <= i <= |history|
        invariant rows == Swept(history[..i], host, user)
      {
        var row := history[i];
        if Stuck(row, host) {
          row := row.(status := FORCE_PROCESSED, user := user);
        }
        assert history[..i + 1][..i] == history[..i];
        rows := rows + [row];
        i := i + 1;
      }
      assert history[..i] == history;
      SweptMeaning(history, host, user);
      if accepted {
        history := rows;
      }
    }
  }
}
