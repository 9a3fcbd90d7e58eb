/** One monitoring cycle of one adapter (`do_workflow` and `execute` of the
    worker script): read the adapter and its latest PROCESSED window end,
    open a PROCESSING history row, poll the backend for the window up to
    now, turn the answer into the events whose trigger flag is set, format
    and dispatch them, and close the history row as PROCESSED or
    SERVER_ERROR. */
module Worker {
  import opened Outcomes
  import opened Values
  import opened Calendar
  import opened EpochTime
  import opened EventParse
  import opened Database

  /** The collaborators the worker calls and whose code is not part of
      this model, as oracles:
      `DatadogApi.get_active_triggers` (the response and the conflict
      flag), `ManageTrigger.main` (one flag per instance/time pair),
      `message_formatting` (a success flag and the form data) and
      `send_request` (a success flag).  Each may also raise. */
  datatype Backend = Backend(
    activeTriggers: (Adapter, int, int) -> Call<(Value, bool)>,
    triggerFlags: seq<Confirm> -> Call<seq<bool>>,
    format: (seq<Diff>, int, int) -> Call<(bool, seq<Value>)>,
    send: seq<Value> -> Call<bool>)

  /** The readings of `datetime.now(UTC)` the worker takes: at the start of
      the cycle (line 429), when inserting the history row (line 148), when
      taking the lock (line 210) and when closing the row (line 177). */
  datatype Clock = Clock(now: DateTime, insertedAt: DateTime, lockedAt: DateTime, updatedAt: DateTime)

  predicate ClockValid(c: Clock)
  {
    Calendar.Valid(c.now) && Calendar.Valid(c.insertedAt) && Calendar.Valid(c.lockedAt) && Calendar.Valid(c.updatedAt)
  }

  /** The triple `execute` returns: `result`, `api_response` and
      `last_monitoring_time`. */
  datatype ExecResult = ExecResult(ok: bool, data: Value, lastMonitoringTime: string)

  /** Whether `execute` reaches the locked compare-and-set: the window end
      converts and the backend answers with its conflict flag raised. */
  predicate LockAttempted(backend: Backend, a: Adapter, fromDt: int, toText: string)
  {
    match ConvertEpochTime(Str(toText))
      case Raises => false
      case Returns(toDt) =>
        match backend.activeTriggers(a, fromDt, toDt)
          case Raises => false
          case Returns(answer) => answer.1
  }

  /** What `execute` (lines 188-229) answers.  Converting the window end
      happens before the `try` and so propagates its exception; a raising
      backend gives `result` False with an empty response; a conflict
      gives `result` False, with an empty response when the adapter row
      is found and with the response received when the locked read raises
      `DoesNotExist`.  `last_monitoring_time` is always the window end as
      given. */
  function ExecuteResult(backend: Backend, a: Adapter, current: seq<Adapter>, fromDt: int, toText: string): Call<ExecResult>
  {
    match ConvertEpochTime(Str(toText))
      case Raises => Raises
      case Returns(toDt) =>
        match backend.activeTriggers(a, fromDt, toDt)
          case Raises => Returns(ExecResult(false, List([]), toText))
          case Returns(answer) =>
            if !answer.1 then Returns(ExecResult(true, answer.0, toText))
            else if FindAdapter(current, a.id).None? then Returns(ExecResult(false, answer.0, toText))
            else Returns(ExecResult(false, List([]), toText))
  }

  /** What the cycle decided: whether an error occurred, and the form data
      handed to `send_request` if it was called. */
  datatype Step = Step(error: bool, sent: Option<seq<Value>>)

  /** Lines 481-532, after a successful `execute`: parse, flag, build the
      difference, format and send.  An exception anywhere, a parse answering
      False, a formatting failure and a send failure are errors; an empty
      difference and empty form data stop the cycle without one. */
  function Dispatch(backend: Backend, a: Adapter, data: Value): Step
  {
    match MessageParseSpec(data, a.matchEvtime, a.matchInstance)
      case Fail => Step(true, None)
      case Crash => Step(true, None)
      case Done(confirm) =>
        match backend.triggerFlags(confirm)
          case Raises => Step(true, None)
          case Returns(flags) =>
            match EventInfo(data, a.responseKeys)
              case Fail => Step(true, None)
              case Crash => Step(true, None)
              case Done(evinfo) =>
                match Difference(flags, evinfo, confirm)
                  case Raises => Step(true, None)
                  case Returns(diff) =>
                    if diff == [] then Step(false, None)
                    else FormatAndSend(backend, a, diff)
  }

  /** Lines 514-532 for a non-empty difference. */
  function FormatAndSend(backend: Backend, a: Adapter, diff: seq<Diff>): Step
  {
    match backend.format(diff, a.ruleTypeId, a.id)
      case Raises => Step(true, None)
      case Returns(formatted) =>
        if !formatted.0 then Step(true, None)
        else if formatted.1 == [] then Step(false, None)
        else match backend.send(formatted.1)
          case Raises => Step(true, Some(formatted.1))
          case Returns(sent) => Step(!sent, Some(formatted.1))
  }

  /** The `try` block of lines 469-537: the window start `lastchange` and
      the window end `now` are formatted and converted, `execute` runs
      against the adapter table as it is then, and its answer decides. */
  function Cycle(backend: Backend, a: Adapter, current: seq<Adapter>, lastchange: DateTime, now: DateTime): Step
    requires Calendar.Valid(lastchange) && Calendar.Valid(now)
  {
    match ConvertEpochTime(Str(IsoText(lastchange)))
      case Raises => Step(true, None)
      case Returns(fromDt) =>
        match ExecuteResult(backend, a, current, fromDt, IsoText(now))
          case Raises => Step(true, None)
          case Returns(ex) => if !ex.ok then Step(true, None) else Dispatch(backend, a, ex.data)
  }

  /** The final status line 543-549 writes. */
  function FinalStatus(s: Step): int
  {
    if s.error then SERVER_ERROR else PROCESSED
  }

  /** Neither window end can make the cycle fail on its own: both are
      `strftime` output of valid datetimes and convert back to their
      timestamps, so the backend sees exactly the window from the last
      processed change to now. */
  lemma WindowConverts(backend: Backend, a: Adapter, current: seq<Adapter>, lastchange: DateTime, now: DateTime)
    requires Calendar.Valid(lastchange) && Calendar.Valid(now)
    ensures ConvertEpochTime(Str(IsoText(lastchange))) == Returns(Epoch(lastchange))
    ensures ExecuteResult(backend, a, current, Epoch(lastchange), IsoText(now)).Returns?
    ensures LockAttempted(backend, a, Epoch(lastchange), IsoText(now)) <==>
      backend.activeTriggers(a, Epoch(lastchange), Epoch(now)).Returns? &&
      backend.activeTriggers(a, Epoch(lastchange), Epoch(now)).value.1
    ensures Cycle(backend, a, current, lastchange, now) ==
      match backend.activeTriggers(a, Epoch(lastchange), Epoch(now))
        case Raises => Step(true, None)
        case Returns(answer) => if answer.1 then Step(true, None) else Dispatch(backend, a, answer.0)
  {
    StrftimeRoundTrip(lastchange);
    StrftimeRoundTrip(now);
  }

  /** The optimistic-lock branch ends the cycle in SERVER_ERROR and sends
      nothing, whether or not the lock was taken. */
  lemma ConflictIsServerError(backend: Backend, a: Adapter, current: seq<Adapter>, lastchange: DateTime, now: DateTime)
    requires Calendar.Valid(lastchange) && Calendar.Valid(now)
    requires LockAttempted(backend, a, Epoch(lastchange), IsoText(now))
    ensures Cycle(backend, a, current, lastchange, now) == Step(true, None)
    ensures FinalStatus(Cycle(backend, a, current, lastchange, now)) == SERVER_ERROR
  {
    WindowConverts(backend, a, current, lastchange, now);
  }

  /** A cycle with nothing new to report (no flagged event) ends PROCESSED
      and sends nothing. */
  lemma EmptyDifferenceIsProcessed(backend: Backend, a: Adapter, data: Value, confirm: seq<Confirm>, flags: seq<bool>,
                                   evinfo: seq<seq<Value>>)
    requires MessageParseSpec(data, a.matchEvtime, a.matchInstance) == Done(confirm)
    requires backend.triggerFlags(confirm) == Returns(flags)
    requires EventInfo(data, a.responseKeys) == Done(evinfo)
    requires |flags| != |evinfo| || forall i :: 0 <= i < |flags| ==> !flags[i]
    ensures Dispatch(backend, a, data) == Step(false, None)
  {
    DifferenceEmpty(flags, evinfo, confirm);
  }

  /** Formatting that succeeds with no form data ends PROCESSED and sends
      nothing. */
  lemma EmptyFormIsProcessed(backend: Backend, a: Adapter, diff: seq<Diff>)
    requires backend.format(diff, a.ruleTypeId, a.id) == Returns((true, []))
    ensures FormatAndSend(backend, a, diff) == Step(false, None)
  {
  }

  /** A dispatch happens only for a non-empty difference, with exactly the
      non-empty form data that formatting produced from it, and the cycle
      is PROCESSED after it exactly when the send reported success. */
  lemma SentOnlyWithDifference(backend: Backend, a: Adapter, data: Value)
    requires Dispatch(backend, a, data).sent.Some?
    ensures var confirm := MessageParseSpec(data, a.matchEvtime, a.matchInstance).value;
      var flags := backend.triggerFlags(confirm).value;
      var evinfo := EventInfo(data, a.responseKeys).value;
      var diff := Difference(flags, evinfo, confirm).value;
      var form := Dispatch(backend, a, data).sent.value;
      && MessageParseSpec(data, a.matchEvtime, a.matchInstance).Done?
      && backend.triggerFlags(confirm).Returns?
      && EventInfo(data, a.responseKeys).Done?
      && Difference(flags, evinfo, confirm).Returns?
      && diff != []
      && backend.format(diff, a.ruleTypeId, a.id) == Returns((true, form))
      && form != []
      && (!Dispatch(backend, a, data).error <==> backend.send(form) == Returns(true))
  {
  }

  /** The cycle is PROCESSED exactly when every step answered normally and
      either there was nothing to report or the report was sent. */
  lemma ProcessedExactly(backend: Backend, a: Adapter, data: Value)
    ensures !Dispatch(backend, a, data).error <==>
      && MessageParseSpec(data, a.matchEvtime, a.matchInstance).Done?
      && var confirm := MessageParseSpec(data, a.matchEvtime, a.matchInstance).value;
      && backend.triggerFlags(confirm).Returns?
      && var flags := backend.triggerFlags(confirm).value;
      && EventInfo(data, a.responseKeys).Done?
      && var evinfo := EventInfo(data, a.responseKeys).value;
      && Difference(flags, evinfo, confirm).Returns?
      && var diff := Difference(flags, evinfo, confirm).value;
      && (diff == [] ||
          (backend.format(diff, a.ruleTypeId, a.id).Returns? &&
           backend.format(diff, a.ruleTypeId, a.id).value.0 &&
           var form := backend.format(diff, a.ruleTypeId, a.id).value.1;
           form == [] || backend.send(form) == Returns(true)))
  {
  }

  /** Lines 432-452: the adapter with key `id` and the start of its
      window, the `datadog_lastchange` of its latest PROCESSED history row
      or, without one, the adapter's own stamp; none without the adapter.
      A stored timestamp, the start is a valid datetime. */
  function WindowStart(adapters: seq<Adapter>, history: seq<HistoryRow>, id: int): (r: Option<(Adapter, DateTime)>)
    requires (forall i :: 0 <= i < |adapters| ==> Calendar.Valid(adapters[i].lastUpdate))
    requires (forall i :: 0 <= i < |history| ==> Calendar.Valid(history[i].lastchange))
    ensures r.Some? <==> FindAdapter(adapters, id).Some?
    ensures r.Some? ==> r.value.0 == FindAdapter(adapters, id).value && Calendar.Valid(r.value.1)
    ensures r.Some? ==> LatestProcessed(history, id).None? ==> r.value.1 == r.value.0.lastUpdate
    ensures r.Some? ==> LatestProcessed(history, id).Some? ==>
      && (exists i :: 0 <= i < |history| && ProcessedFor(history[i], id) && history[i].lastchange == r.value.1)
      && forall i :: 0 <= i < |history| && ProcessedFor(history[i], id) ==> !Before(r.value.1, history[i].lastchange)
  {
    match FindAdapter(adapters, id)
      case None => None
      case Some(a) =>
        match LatestProcessed(history, id)
          case None => Some((a, a.lastUpdate))
          case Some(t) => Some((a, t))
  }

  /** The adapter table after a cycle: locked when `execute` takes the
      conflict branch, as it was otherwise. */
  function CycleAdapters(backend: Backend, a: Adapter, adapters: seq<Adapter>, lastchange: DateTime, clock: Clock): seq<Adapter>
    requires Calendar.Valid(lastchange) && ClockValid(clock)
  {
    if LockAttempted(backend, a, Epoch(lastchange), IsoText(clock.now))
    then Locked(adapters, a.id, a.lastUpdate, clock.lockedAt)
    else adapters
  }

  /** The worker object of the script (`DatadogAdapterSubModules`). */
  class SubModules {
    const adapterId: int
    const user: string
    var adapter: Option<Adapter>
    var monitoringHistory: Option<nat>

    constructor (adapterId: int, user: string)
      ensures this.adapterId == adapterId && this.user == user
      ensures adapter == None && monitoringHistory == None
    {
      this.adapterId := adapterId;
      this.user := user;
      adapter := None;
      monitoringHistory := None;
    }

    /** `execute` (lines 188-229). */
    method Execute(db: Store, backend: Backend, a: Adapter, fromDt: int, toText: string, lockedAt: DateTime)
      returns (r: Call<ExecResult>)
      requires db.Valid() && Calendar.Valid(lockedAt)
      modifies db
      ensures db.Valid()
      ensures r == ExecuteResult(backend, a, old(db.adapters), fromDt, toText)
      ensures db.history == old(db.history)
      ensures db.adapters ==
        if LockAttempted(backend, a, fromDt, toText) then Locked(old(db.adapters), a.id, a.lastUpdate, lockedAt)
        else old(db.adapters)
    {
      var result := true;
      var apiResponse := List([]);
      var lastMonitoringTime := toText;
      var toDt := ConvertEpochTime(Str(toText));
      if toDt.Raises? {
        return Raises;
      }
      var answer := backend.activeTriggers(a, fromDt, toDt.value);
      if answer.Raises? {
        return Returns(ExecResult(false, apiResponse, lastMonitoringTime));
      }
      apiResponse := answer.value.0;
      if answer.value.1 {
        var found := db.MarkBusyIfUnchanged(a.id, a.lastUpdate, lockedAt);
        if !found {
          return Returns(ExecResult(false, apiResponse, lastMonitoringTime));
        }
        result := false;
        apiResponse := List([]);
      }
      return Returns(ExecResult(result, apiResponse, lastMonitoringTime));
    }

    /** The `try` block of `do_workflow` (lines 465-537), threading the
        `runnable` and `error_occurred` flags as the source does. */
    method RunCycle(db: Store, backend: Backend, a: Adapter, lastchange: DateTime, clock: Clock) returns (step: Step)
      requires db.Valid() && Calendar.Valid(lastchange) && ClockValid(clock)
      modifies db
      ensures db.Valid()
      ensures step == Cycle(backend, a, old(db.adapters), lastchange, clock.now)
      ensures db.history == old(db.history)
      ensures db.adapters == CycleAdapters(backend, a, old(db.adapters), lastchange, clock)
    {
      StrftimeRoundTrip(lastchange);
      var fromDt := ConvertEpochTime(Str(IsoText(lastchange)));
      if fromDt.Raises? {
        return Step(true, None);
      }
      var ex := Execute(db, backend, a, fromDt.value, IsoText(clock.now), clock.lockedAt);
      if ex.Raises? {
        return Step(true, None);
      }
      step := Respond(backend, a, ex.value.ok, ex.value.data);
    }

    /** Lines 474-512: the answer of `execute` and the difference built
        from its data; `runnable` and `error_occurred` are the source's
        two flags. */
    method Respond(backend: Backend, a: Adapter, ok: bool, data: Value) returns (step: Step)
      ensures step == if !ok then Step(true, None) else Dispatch(backend, a, data)
    {
      var runnable := true;
      var errorOccurred := false;
      if !ok {
        errorOccurred := true;
        runnable := false;
      }
      var difference: seq<Diff> := [];
      if runnable {
        var parsed := MessageParse(data, a.matchEvtime, a.matchInstance);
        if !parsed.Done? {
          return Step(true, None);
        }
        var confirm := parsed.value;
        var flags := backend.triggerFlags(confirm);
        if flags.Raises? {
          return Step(true, None);
        }
        var evinfo := EventInfoParse(data, a.responseKeys);
        if !evinfo.Done? {
          return Step(true, None);
        }
        var built := BuildDifference(flags.value, evinfo.value, confirm);
        if built.Raises? {
          return Step(true, None);
        }
        difference := built.value;
        if |difference| <= 0 {
          runnable := false;
        }
      }
      if !runnable {
        return Step(errorOccurred, None);
      }
      step := Deliver(backend, a, difference);
    }

    /** Lines 514-537 for a non-empty difference: format, then send. */
    method Deliver(backend: Backend, a: Adapter, difference: seq<Diff>) returns (step: Step)
      requires difference != []
      ensures step == FormatAndSend(backend, a, difference)
    {
      var runnable := true;
      var errorOccurred := false;
      var sent: Option<seq<Value>> := None;
      var formData: seq<Value> := [];
      var formatted := backend.format(difference, a.ruleTypeId, a.id);
      if formatted.Raises? {
        return Step(true, None);
      }
      formData := formatted.value.1;
      if !formatted.value.0 {
        errorOccurred := true;
        runnable := false;
      }
      if |formData| <= 0 {
        runnable := false;
      }
      if runnable {
        sent := Some(formData);
        var sendResult := backend.send(formData);
        if sendResult.Raises? {
          return Step(true, sent);
        }
        if !sendResult.value {
          errorOccurred := true;
          runnable := false;
        }
      }
      return Step(errorOccurred, sent);
    }

    /** Lines 469-554 once the PROCESSING row `pk` exists: run the cycle
        and close the row with its final status, or leave it as it is when
        the closing update is refused. */
    method CloseCycle(db: Store, backend: Backend, a: Adapter, lastchange: DateTime, pk: nat, clock: Clock, host: string,
                      updateAccepted: bool)
      requires db.Valid() && Calendar.Valid(lastchange) && ClockValid(clock) && pk < |db.history|
      modifies db
      ensures db.Valid()
      ensures db.history == if updateAccepted
        then old(db.history)[pk := HistoryRow(old(db.history)[pk].adapterId, clock.now,
               FinalStatus(Cycle(backend, a, old(db.adapters), lastchange, clock.now)), host, clock.updatedAt, user)]
        else old(db.history)
      ensures db.adapters == CycleAdapters(backend, a, old(db.adapters), lastchange, clock)
    {
      var step := RunCycle(db, backend, a, lastchange, clock);
      // the window end Django stores is the `strftime` text of `now`
      var ok := db.UpdateHistory(pk, FinalStatus(step), clock.now, host, clock.updatedAt, user, updateAccepted);
    }

    /** `do_workflow` (lines 420-558).  Without the adapter, or when the
        history insert is refused, it answers False and the database is
        unchanged.  Otherwise it answers True with exactly one new history
        row, for this adapter and host, whose window start is the latest
        PROCESSED change (or the adapter's own stamp); when the closing
        update is accepted that row ends in exactly one terminal status,
        PROCESSED iff the cycle had no error, with the window end `now`;
        when it is refused the row stays PROCESSING for the supervisor's
        sweep.  The adapter read is kept in `adapter`, and the key of the
        inserted row (None when the insert is refused) in
        `monitoringHistory`. */
    method DoWorkflow(db: Store, backend: Backend, clock: Clock, host: string, insertAccepted: bool, updateAccepted: bool)
      returns (r: bool)
      requires db.Valid() && ClockValid(clock)
      modifies this, db
      ensures db.Valid()
      ensures var start := WindowStart(old(db.adapters), old(db.history), adapterId);
        start.None? || !insertAccepted ==> !r && db.history == old(db.history) && db.adapters == old(db.adapters)
      ensures var start := WindowStart(old(db.adapters), old(db.history), adapterId);
        start.None? ==> adapter == old(adapter) && monitoringHistory == old(monitoringHistory)
      ensures var start := WindowStart(old(db.adapters), old(db.history), adapterId);
        start.Some? ==>
        && adapter == Some(start.value.0)
        && monitoringHistory == if insertAccepted then Some(|old(db.history)|) else None
      ensures var start := WindowStart(old(db.adapters), old(db.history), adapterId);
        start.Some? && insertAccepted ==>
        var (a, lastchange) := start.value;
        && r
        && db.history == old(db.history) + [
             if updateAccepted
             then HistoryRow(adapterId, clock.now, FinalStatus(Cycle(backend, a, old(db.adapters), lastchange, clock.now)),
                             host, clock.updatedAt, user)
             else HistoryRow(adapterId, lastchange, PROCESSING, host, clock.insertedAt, user)]
        && db.adapters == CycleAdapters(backend, a, old(db.adapters), lastchange, clock)
    {
      var start := WindowStart(db.adapters, db.history, adapterId);
      if start.None? {
        return false;
      }
      var (a, lastchange) := start.value;
      adapter := Some(a);
      var pk := OpenCycle(db, backend, a, lastchange, clock, host, insertAccepted, updateAccepted);
      monitoringHistory := pk;
      return pk.Some?;
    }

    /** Lines 454-554 for the adapter `a` and the window start `lastchange`:
        the PROCESSING row is inserted, or the insert is refused and nothing
        changes; an inserted row is then closed by `CloseCycle`. */
    method OpenCycle(db: Store, backend: Backend, a: Adapter, lastchange: DateTime, clock: Clock, host: string,
                     insertAccepted: bool, updateAccepted: bool)
      returns (pk: Option<nat>)
      requires db.Valid() && Calendar.Valid(lastchange) && ClockValid(clock)
      modifies db
      ensures db.Valid()
      ensures !insertAccepted ==> pk.None? && db.history == old(db.history) && db.adapters == old(db.adapters)
      ensures insertAccepted ==>
        && pk == Some(|old(db.history)|)
        && db.history == old(db.history) + [
             if updateAccepted
             then HistoryRow(adapterId, clock.now, FinalStatus(Cycle(backend, a, old(db.adapters), lastchange, clock.now)),
                             host, clock.updatedAt, user)
             else HistoryRow(adapterId, lastchange, PROCESSING, host, clock.insertedAt, user)]
        && db.adapters == CycleAdapters(backend, a, old(db.adapters), lastchange, clock)
    {
      ghost var h0 := db.history;
      var openRow := HistoryRow(adapterId, lastchange, PROCESSING, host, clock.insertedAt, user);
      pk := db.InsertHistory(openRow, insertAccepted);
      if pk.None? {
        return;
      }
      assert pk.value == |h0| && db.history[pk.value] == openRow;
      LastRowReplaced(h0, openRow, HistoryRow(adapterId, clock.now,
        FinalStatus(Cycle(backend, a, old(db.adapters), lastchange, clock.now)), host, clock.updatedAt, user));
      CloseCycle(db, backend, a, lastchange, pk.value, clock, host, updateAccepted);
    }
  }
}
