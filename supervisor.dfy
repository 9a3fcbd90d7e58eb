/** The supervisor script: under a single-instance lock it starts one
    worker process per idle adapter, waits until every worker has exited,
    and then marks this host's history rows that are still PROCESSING as
    FORCE_PROCESSED. */
module Supervisor {
  import opened Outcomes
  import opened Text
  import opened Database

  /** A worker process handle.  Time is counted in observations: `poll()`
      reports the process finished from observation `exitRound` on. */
  datatype Handle = Handle(adapterId: int, exitRound: nat)

  predicate Finished(h: Handle, round: nat)
  {
    h.exitRound <= round
  }

  /** No entry has key `id`. */
  predicate Absent(entries: seq<Handle>, id: int)
  {
    forall i :: 0 <= i < |entries| ==> entries[i].adapterId != id
  }

  /** The entries of a table, keyed by adapter, in the order the keys were
      first inserted (the order `list(aryPCB)` lists them). */
  predicate Keyed(entries: seq<Handle>)
  {
    forall i, j :: 0 <= i < j < |entries| ==> entries[i].adapterId != entries[j].adapterId
  }

  /** Where the entry for `id` sits, if there is one. */
  function KeyIndex(entries: seq<Handle>, id: int): (r: Option<nat>)
    ensures r.None? <==> Absent(entries, id)
    ensures r.Some? ==> r.value < |entries| && entries[r.value].adapterId == id
    ensures r.Some? ==> Absent(entries[..r.value], id)
  {
    if entries == [] then None
    else if entries[0].adapterId == id then Some(0)
    else match KeyIndex(entries[1..], id)
      case None => None
      case Some(k) => Some(k + 1)
  }

  /** `aryPCB[id] = proc`: a known key keeps its place and gets the new
      handle, a new key goes last. */
  function Put(entries: seq<Handle>, h: Handle): seq<Handle>
  {
    match KeyIndex(entries, h.adapterId)
      case None => entries + [h]
      case Some(k) => entries[k := h]
  }

  /** The keys of a table in table order (`list(aryPCB)`). */
  function Keys(entries: seq<Handle>): (r: seq<int>)
    ensures |r| == |entries| && forall i :: 0 <= i < |entries| ==> r[i] == entries[i].adapterId
  {
    seq(|entries|, i requires 0 <= i < |entries| => entries[i].adapterId)
  }

  /** `Put` adds its key at the end when the key is new and leaves the
      keys as they are otherwise. */
  lemma PutKeys(entries: seq<Handle>, h: Handle)
    ensures Keys(Put(entries, h)) == if Absent(entries, h.adapterId) then Keys(entries) + [h.adapterId] else Keys(entries)
  {
    var r := Put(entries, h);
    match KeyIndex(entries, h.adapterId)
    case None =>
      assert r == entries + [h];
      assert forall i :: 0 <= i < |r| ==> Keys(r)[i] == (Keys(entries) + [h.adapterId])[i];
    case Some(k) =>
      assert r == entries[k := h];
      assert forall i :: 0 <= i < |r| ==> Keys(r)[i] == Keys(entries)[i];
  }

  /** `aryPCB.pop(id)`: the entry for `id` leaves, the others keep their
      order. */
  function Remove(entries: seq<Handle>, id: int): seq<Handle>
  {
    if entries == [] then []
    else
      var rest := Remove(entries[..|entries| - 1], id);
      var last := entries[|entries| - 1];
      if last.adapterId == id then rest else rest + [last]
  }

  /** After `Put` the key holds the new handle. */
  lemma PutFinds(entries: seq<Handle>, h: Handle)
    ensures var r := Put(entries, h); var k := KeyIndex(r, h.adapterId); k.Some? && r[k.value] == h
  {
    var r := Put(entries, h);
    var id := h.adapterId;
    match KeyIndex(entries, id)
    case None =>
      assert r == entries + [h];
      assert r[|entries|] == h;
      var k := KeyIndex(r, id);
      assert forall i :: 0 <= i < |entries| ==> r[i].adapterId != id;
    case Some(j) =>
      assert r == entries[j := h];
      assert r[j] == h;
      var k := KeyIndex(r, id);
      assert forall i :: 0 <= i < j ==> r[i].adapterId != id by {
        assert forall i :: 0 <= i < j ==> r[i] == entries[..j][i];
      }
      assert forall i :: 0 <= i < k.value ==> r[i].adapterId != id by {
        assert forall i :: 0 <= i < k.value ==> r[i] == r[..k.value][i];
      }
      assert k.value == j;
  }

  /** `Put` leaves every other key where it was. */
  lemma PutOthers(entries: seq<Handle>, h: Handle)
    ensures forall id :: id != h.adapterId ==> KeyIndex(Put(entries, h), id) == KeyIndex(entries, id)
  {
    forall other | other != h.adapterId
      ensures KeyIndex(Put(entries, h), other) == KeyIndex(entries, other)
    {
      match KeyIndex(entries, h.adapterId)
      case None => PutAppendOther(entries, h, other);
      case Some(j) => PutReplaceOther(entries, j, h, other);
    }
  }

  /** `Put` keeps the keys distinct and brings in no entry but `h`. */
  lemma PutKeyed(entries: seq<Handle>, h: Handle)
    requires Keyed(entries)
    ensures Keyed(Put(entries, h))
    ensures forall x :: x in Put(entries, h) ==> x == h || x in entries
  {
  }

  lemma PutAppendOther(entries: seq<Handle>, h: Handle, id: int)
    requires id != h.adapterId
    ensures KeyIndex(entries + [h], id) == KeyIndex(entries, id)
  {
    var r := entries + [h];
    match KeyIndex(entries, id)
    case None =>
      assert forall i :: 0 <= i < |r| ==> r[i].adapterId != id by {
        assert forall i :: 0 <= i < |entries| ==> r[i] == entries[i];
      }
    case Some(k) =>
      var q := KeyIndex(r, id);
      assert r[k] == entries[k];
      assert q.value == k;
  }

  lemma PutReplaceOther(entries: seq<Handle>, k: nat, h: Handle, id: int)
    requires k < |entries| && entries[k].adapterId == h.adapterId && id != h.adapterId
    ensures KeyIndex(entries[k := h], id) == KeyIndex(entries, id)
  {
    var r := entries[k := h];
    assert forall i :: 0 <= i < |r| ==> (r[i].adapterId == id <==> entries[i].adapterId == id);
    match KeyIndex(entries, id)
    case None =>
    case Some(j) =>
      var q := KeyIndex(r, id);
      assert q.value == j;
  }

  /** `Remove` takes out exactly the entries for `id`. */
  lemma {:induction false} RemoveMeaning(entries: seq<Handle>, id: int)
    ensures forall x :: x in Remove(entries, id) <==> x in entries && x.adapterId != id
  {
    if entries != [] {
      var init := entries[..|entries| - 1];
      RemoveMeaning(init, id);
      assert entries == init + [entries[|entries| - 1]];
    }
  }

  /** `Remove` of a key the entries do not hold changes nothing. */
  lemma {:induction false} RemoveAbsent(entries: seq<Handle>, id: int)
    requires Absent(entries, id)
    ensures Remove(entries, id) == entries
  {
    if entries != [] {
      var init := entries[..|entries| - 1];
      RemoveAbsent(init, id);
      assert entries == init + [entries[|entries| - 1]];
    }
  }

  lemma {:induction false} RemoveAppend(a: seq<Handle>, b: seq<Handle>, id: int)
    ensures Remove(a + b, id) == Remove(a, id) + Remove(b, id)
    decreases |b|
  {
    if b != [] {
      var init := b[..|b| - 1];
      assert (a + b)[..|a + b| - 1] == a + init;
      RemoveAppend(a, init, id);
    } else {
      assert a + b == a;
    }
  }

  /** `do_normal` over the first `n` adapters, starting from the table
      `entries`, as the answer and the table it leaves: busy adapters
      (`status_flag > 0`) are skipped, every other one gets the process
      `spawn` starts for it, and the first `Popen` failure (`spawn` gives
      none) stops the scan with False. */
  datatype Spawning = Spawning(ok: bool, entries: seq<Handle>)

  function SpawnUpTo(adapters: seq<Adapter>, spawn: int -> Option<nat>, entries: seq<Handle>, n: nat): Spawning
    requires n <= |adapters|
  {
    if n == 0 then Spawning(true, entries)
    else
      var s := SpawnUpTo(adapters, spawn, entries, n - 1);
      var a := adapters[n - 1];
      if !s.ok || a.statusFlag > 0 then s
      else match spawn(a.id)
        case None => Spawning(false, s.entries)
        case Some(e) => Spawning(true, Put(s.entries, Handle(a.id, e)))
  }

  predicate Idle(a: Adapter)
  {
    a.statusFlag <= 0
  }

  /** `do_normal` answers True exactly when every idle adapter's process
      started. */
  lemma {:induction false} SpawnOk(adapters: seq<Adapter>, spawn: int -> Option<nat>, entries: seq<Handle>, n: nat)
    requires n <= |adapters|
    ensures SpawnUpTo(adapters, spawn, entries, n).ok <==>
      forall i :: 0 <= i < n && Idle(adapters[i]) ==> spawn(adapters[i].id).Some?
  {
    if n > 0 {
      SpawnOk(adapters, spawn, entries, n - 1);
    }
  }

  /** The table `do_normal` leaves keeps its keys distinct, and every key
      it held before is still there. */
  lemma {:induction false} SpawnKeyed(adapters: seq<Adapter>, spawn: int -> Option<nat>, entries: seq<Handle>, n: nat)
    requires n <= |adapters| && Keyed(entries)
    ensures Keyed(SpawnUpTo(adapters, spawn, entries, n).entries)
    ensures forall id :: id in Keys(entries) ==> id in Keys(SpawnUpTo(adapters, spawn, entries, n).entries)
  {
    if n > 0 {
      SpawnKeyed(adapters, spawn, entries, n - 1);
      var s := SpawnUpTo(adapters, spawn, entries, n - 1);
      var a := adapters[n - 1];
      if s.ok && Idle(a) && spawn(a.id).Some? {
        PutKeyed(s.entries, Handle(a.id, spawn(a.id).value));
        PutKeys(s.entries, Handle(a.id, spawn(a.id).value));
      }
    }
  }

  /** Once `do_normal` answers True the table holds an entry for each idle
      adapter. */
  lemma {:induction false} SpawnCovers(adapters: seq<Adapter>, spawn: int -> Option<nat>, entries: seq<Handle>, n: nat)
    requires n <= |adapters|
    ensures var s := SpawnUpTo(adapters, spawn, entries, n);
      s.ok ==> forall i :: 0 <= i < n && Idle(adapters[i]) ==> adapters[i].id in Keys(s.entries)
  {
    if n > 0 {
      SpawnCovers(adapters, spawn, entries, n - 1);
      var s := SpawnUpTo(adapters, spawn, entries, n - 1);
      var s' := SpawnUpTo(adapters, spawn, entries, n);
      var a := adapters[n - 1];
      if s'.ok && Idle(a) {
        var h := Handle(a.id, spawn(a.id).value);
        assert s'.entries == Put(s.entries, h);
        PutKeys(s.entries, h);
        if !Absent(s.entries, a.id) {
          var j :| 0 <= j < |s.entries| && s.entries[j].adapterId == a.id;
          assert Keys(s.entries)[j] == a.id;
        }
      }
    }
  }

  /** Every entry of the table `do_normal` leaves was there before or is
      the process started for an idle adapter. */
  lemma {:induction false} SpawnOrigin(adapters: seq<Adapter>, spawn: int -> Option<nat>, entries: seq<Handle>, n: nat)
    requires n <= |adapters| && Keyed(entries)
    ensures forall x :: x in SpawnUpTo(adapters, spawn, entries, n).entries ==>
      x in entries || (Started(adapters, n, x.adapterId) && spawn(x.adapterId) == Some(x.exitRound))
  {
    if n > 0 {
      SpawnOrigin(adapters, spawn, entries, n - 1);
      SpawnKeyed(adapters, spawn, entries, n - 1);
      var s := SpawnUpTo(adapters, spawn, entries, n - 1);
      var a := adapters[n - 1];
      var j := n - 1;
      assert forall id :: Started(adapters, n - 1, id) ==> Started(adapters, n, id);
      if s.ok && Idle(a) && spawn(a.id).Some? {
        PutKeyed(s.entries, Handle(a.id, spawn(a.id).value));
        assert Started(adapters, n, a.id) by {
          assert 0 <= j < n && Idle(adapters[j]) && adapters[j].id == a.id;
        }
      }
    }
  }

  /** One more idle adapter: its start either fails the scan or records
      its process. */
  lemma SpawnNext(adapters: seq<Adapter>, spawn: int -> Option<nat>, start: seq<Handle>, i: nat, entries: seq<Handle>)
    requires i < |adapters| && Idle(adapters[i])
    requires SpawnUpTo(adapters, spawn, start, i) == Spawning(true, entries)
    ensures SpawnUpTo(adapters, spawn, start, i + 1) ==
      if spawn(adapters[i].id).None? then Spawning(false, entries)
      else Spawning(true, Put(entries, Handle(adapters[i].id, spawn(adapters[i].id).value)))
  {
  }

  /** Some idle adapter among the first `n` has key `id`. */
  predicate Started(adapters: seq<Adapter>, n: nat, id: int)
    requires n <= |adapters|
  {
    exists i :: 0 <= i < n && Idle(adapters[i]) && adapters[i].id == id
  }

  /** After the first failed start no further adapter is started: the scan
      leaves the table exactly as it was at the failure. */
  lemma {:induction false} SpawnStops(adapters: seq<Adapter>, spawn: int -> Option<nat>, entries: seq<Handle>, k: nat, n: nat)
    requires k <= n <= |adapters|
    requires !SpawnUpTo(adapters, spawn, entries, k).ok
    ensures SpawnUpTo(adapters, spawn, entries, n) == SpawnUpTo(adapters, spawn, entries, k)
    decreases n - k
  {
    if n > k {
      SpawnStops(adapters, spawn, entries, k, n - 1);
    }
  }

  /** The live entries after an observation at `round`, in table order. */
  function Running(entries: seq<Handle>, round: nat): (r: seq<Handle>)
    ensures |r| <= |entries|
  {
    if entries == [] then []
    else
      var rest := Running(entries[..|entries| - 1], round);
      var last := entries[|entries| - 1];
      if Finished(last, round) then rest else rest + [last]
  }

  /** An observation keeps exactly the entries still running, and the keys
      stay distinct. */
  lemma {:induction false} RunningMeaning(entries: seq<Handle>, round: nat)
    ensures forall x :: x in Running(entries, round) <==> x in entries && !Finished(x, round)
  {
    if entries != [] {
      var init := entries[..|entries| - 1];
      RunningMeaning(init, round);
      assert entries == init + [entries[|entries| - 1]];
    }
  }

  lemma {:induction false} RunningKeyed(entries: seq<Handle>, round: nat)
    requires Keyed(entries)
    ensures Keyed(Running(entries, round))
  {
    if entries != [] {
      var init := entries[..|entries| - 1];
      var last := entries[|entries| - 1];
      RunningKeyed(init, round);
      RunningAbsent(init, round, last.adapterId);
    }
  }

  /** An observation adds no key. */
  lemma {:induction false} RunningAbsent(entries: seq<Handle>, round: nat, id: int)
    requires Absent(entries, id)
    ensures Absent(Running(entries, round), id)
  {
    if entries != [] {
      var init := entries[..|entries| - 1];
      RunningAbsent(init, round, id);
    }
  }

  /** In the observation loop over the listed entries `ids`, with the
      first `i` observed, the entry for `ids[i]` sits right after the
      survivors and is `ids[i]` itself. */
  lemma ObserveFind(ids: seq<Handle>, i: nat, round: nat)
    requires Keyed(ids) && i < |ids|
    ensures var cur := Running(ids[..i], round) + ids[i..];
      var k := KeyIndex(cur, ids[i].adapterId);
      k == Some(|Running(ids[..i], round)|) && cur[k.value] == ids[i]
  {
    var id := ids[i].adapterId;
    var r := Running(ids[..i], round);
    var cur := r + ids[i..];
    RunningAbsent(ids[..i], round, id);
    assert cur[|r|] == ids[i];
    var k := KeyIndex(cur, id);
    assert forall j :: 0 <= j < |r| ==> cur[j].adapterId != id by {
      assert forall j :: 0 <= j < |r| ==> cur[j] == r[j];
    }
    assert forall j :: 0 <= j < k.value ==> cur[j].adapterId != id by {
      assert forall j :: 0 <= j < k.value ==> cur[j] == cur[..k.value][j];
    }
    assert k.value == |r|;
  }

  /** Popping `ids[i]` when it is finished leaves the first `i + 1`
      observed. */
  lemma ObserveReap(ids: seq<Handle>, i: nat, round: nat)
    requires Keyed(ids) && i < |ids| && Finished(ids[i], round)
    ensures Remove(Running(ids[..i], round) + ids[i..], ids[i].adapterId) == Running(ids[..i + 1], round) + ids[i + 1..]
  {
    var id := ids[i].adapterId;
    var r := Running(ids[..i], round);
    assert ids[..i + 1][..i] == ids[..i];
    assert Running(ids[..i + 1], round) == r;
    assert r + ids[i..] == r + [ids[i]] + ids[i + 1..];
    RunningAbsent(ids[..i], round, id);
    assert Absent(ids[i + 1..], id);
    RemoveBetween(r, ids[i], ids[i + 1..]);
  }

  /** Removing a key held once, between entries without it, drops that
      one entry. */
  lemma RemoveBetween(r: seq<Handle>, x: Handle, tail: seq<Handle>)
    requires Absent(r, x.adapterId) && Absent(tail, x.adapterId)
    ensures Remove(r + [x] + tail, x.adapterId) == r + tail
  {
    var id := x.adapterId;
    RemoveAppend(r + [x], tail, id);
    RemoveAppend(r, [x], id);
    RemoveAbsent(r, id);
    RemoveAbsent(tail, id);
    assert Remove([x], id) == [] by {
      assert [x][..0] == [];
    }
  }

  /** Keeping `ids[i]` when it is still running leaves the first `i + 1`
      observed. */
  lemma ObserveKeep(ids: seq<Handle>, i: nat, round: nat)
    requires i < |ids| && !Finished(ids[i], round)
    ensures Running(ids[..i], round) + ids[i..] == Running(ids[..i + 1], round) + ids[i + 1..]
  {
    assert ids[..i + 1][..i] == ids[..i];
    assert ids[i..] == [ids[i]] + ids[i + 1..];
  }

  /** A bound on the exit rounds of a table's processes. */
  function Horizon(entries: seq<Handle>): (h: nat)
    ensures forall i :: 0 <= i < |entries| ==> entries[i].exitRound <= h
  {
    if entries == [] then 0
    else
      var h := Horizon(entries[1..]);
      if entries[0].exitRound > h then entries[0].exitRound else h
  }

  /** `aryPCB`, the table of live worker processes by adapter key. */
  class ProcessTable {
    var entries: seq<Handle>

    ghost predicate Valid()
      reads this
    {
      Keyed(entries)
    }

    constructor ()
      ensures entries == [] && Valid()
    {
      entries := [];
    }
  }

  /** The lock file of lines 218-225 and 249-252; `held` is true while some
      supervisor holds the exclusive lock. */
  class LockFile {
    var held: bool

    constructor (held: bool)
      ensures this.held == held
    {
      this.held := held;
    }
  }

  /** The longest `sleep` CPython accepts: the length is converted to
      nanoseconds in a signed 64-bit count, so 2^63 - 1 nanoseconds, cut to
      whole seconds. */
  const MaxSleepSeconds := 9223372036

  /** Whether `sleep(int(run_interval))` returns: `int()` must accept the
      text, `sleep` refuses a negative length (`ValueError`) and one whose
      nanoseconds overflow (`OverflowError`). */
  predicate SleepReturns(runInterval: string)
  {
    PyInt(runInterval).Some? && 0 <= PyInt(runInterval).value <= MaxSleepSeconds
  }

  /** The supervisor object of the script (`DatadogAdapterMainModules`). */
  class MainModules {
    const lastUpdateUser: string
    const hostname: string

    constructor (lastUpdateUser: string, hostname: string)
      ensures this.lastUpdateUser == lastUpdateUser && this.hostname == hostname
    {
      this.lastUpdateUser := lastUpdateUser;
      this.hostname := hostname;
    }

    /** `execute_subprocess` (lines 111-131): start the worker for adapter
        `id` and record its handle, or answer False when `Popen` fails. */
    method ExecuteSubprocess(table: ProcessTable, id: int, spawn: int -> Option<nat>) returns (ok: bool)
      requires table.Valid()
      modifies table
      ensures table.Valid()
      ensures ok <==> spawn(id).Some?
      ensures table.entries == if ok then Put(old(table.entries), Handle(id, spawn(id).value)) else old(table.entries)
    {
      var proc := spawn(id);
      if proc.None? {
        return false;
      }
      PutKeyed(table.entries, Handle(id, proc.value));
      table.entries := Put(table.entries, Handle(id, proc.value));
      return true;
    }

    /** `do_normal` (lines 134-154). */
    method DoNormal(table: ProcessTable, adapters: seq<Adapter>, spawn: int -> Option<nat>) returns (ok: bool)
      requires table.Valid()
      modifies table
      ensures table.Valid()
      ensures Spawning(ok, table.entries) == SpawnUpTo(adapters, spawn, old(table.entries), |adapters|)
    {
      ghost var start := table.entries;
      if |adapters| > 0 {
        var i := 0;
        while i < |adapters|
          invariant 0 <= i <= |adapters|
          invariant table.Valid()
          invariant SpawnUpTo(adapters, spawn, start, i) == Spawning(true, table.entries)
        {
          if adapters[i].statusFlag > 0 {
            i := i + 1;
            continue;
          }
          ghost var before := table.entries;
          var ret := ExecuteSubprocess(table, adapters[i].id, spawn);
          SpawnNext(adapters, spawn, start, i, before);
          if !ret {
            SpawnStops(adapters, spawn, start, i + 1, |adapters|);
            return false;
          }
          i := i + 1;
        }
      }
      return true;
    }

    /** `observe_subprocess` (lines 157-176): the keys are listed first;
        then each listed process that `poll()` reports finished is reaped
        (`wait()` and `pop`), while running ones stay where they are. */
    method ObserveSubprocess(table: ProcessTable, round: nat)
      requires table.Valid()
      modifies table
      ensures table.Valid()
      ensures table.entries == Running(old(table.entries), round)
    {
      var ids := table.entries;
      var i := 0;
      while i < |ids|
        invariant 0 <= i <= |ids|
        invariant Keyed(ids)
        invariant table.entries == Running(ids[..i], round) + ids[i..]
      {
        var id := ids[i].adapterId;
        // `aryPCB[id]` is the listed handle `ids[i]` (ObserveFind)
        var proc := ids[i];
        if Finished(proc, round) {
          ObserveReap(ids, i, round);
          table.entries := Remove(table.entries, id);
        } else {
          ObserveKeep(ids, i, round);
        }
        i := i + 1;
      }
      assert ids[..|ids|] == ids;
      RunningKeyed(ids, round);
    }

    /** `set_force_terminate_status` (lines 179-213): the sweep of this
        host's stuck rows in one transaction; a refused transaction is
        swallowed and leaves the table as it was. */
    method SetForceTerminateStatus(db: Store, accepted: bool)
      requires db.Valid()
      modifies db
      ensures db.Valid()
      ensures db.adapters == old(db.adapters)
      ensures db.history == if accepted then Swept(old(db.history), hostname, lastUpdateUser) else old(db.history)
    {
      db.ForceTerminate(hostname, lastUpdateUser, accepted);
    }
  }

  /** The loop of lines 233-242: observe, stop once the table is empty,
      otherwise sleep `int(run_interval)` seconds and observe again.  It
      answers False when the sleep raises, which can only happen on the
      first sleep, and the table is then as the first observation left it;
      otherwise every process has been reaped. */
  method WaitAll(main: MainModules, table: ProcessTable, runInterval: string) returns (drained: bool)
    requires table.Valid()
    modifies table
    ensures table.Valid()
    ensures drained <==> Running(old(table.entries), 0) == [] || SleepReturns(runInterval)
    ensures drained ==> table.entries == []
    ensures !drained ==> table.entries == Running(old(table.entries), 0)
  {
    ghost var started := table.entries;
    ghost var bound := Horizon(started);
    var round := 0;
    while true
      invariant table.Valid()
      invariant round <= bound
      invariant round > 0 ==> SleepReturns(runInterval)
      invariant round == 0 ==> table.entries == started
      invariant forall x :: x in table.entries ==> x.exitRound <= bound
      decreases bound - round
    {
      ghost var before := table.entries;
      main.ObserveSubprocess(table, round);
      if |table.entries| == 0 {
        return true;
      }
      var secs := PyInt(runInterval);
      if secs.None? || secs.value < 0 || secs.value > MaxSleepSeconds {
        return false;
      }
      RunningMeaning(before, round);
      var x := table.entries[0];
      assert x in table.entries;
      assert round < x.exitRound <= bound;
      round := round + 1;
    }
  }

  /** The script's main block (lines 216-254).  When the lock is already
      held it exits 0 and touches nothing.  Otherwise it takes the lock,
      and each path releases it: a failed user lookup exits 2; after the
      adapters are scanned the processes are waited for, and a
      `sleep(int(run_interval))` that raises exits 2 with the history
      untouched; once the table has drained the sweep runs and the script
      exits 0.  The workers' own writes happen in other processes and are
      not part of this model. */
  method Supervise(lock: LockFile, db: Store, hostname: string, user: Option<string>, spawn: int -> Option<nat>,
                   runInterval: string, sweepAccepted: bool)
    returns (exitCode: int, table: ProcessTable)
    requires db.Valid()
    modifies lock, db
    ensures fresh(table) && table.Valid()
    ensures db.Valid() && db.adapters == old(db.adapters)
    ensures old(lock.held) ==> exitCode == 0 && lock.held && db.history == old(db.history) && table.entries == []
    ensures !old(lock.held) ==> !lock.held
    ensures !old(lock.held) && user.None? ==> exitCode == 2 && db.history == old(db.history)
    ensures !old(lock.held) && user.Some? ==>
      var started := SpawnUpTo(old(db.adapters), spawn, [], |old(db.adapters)|).entries;
      exitCode == if Running(started, 0) != [] && !SleepReturns(runInterval) then 2 else 0
    ensures exitCode == 0 || exitCode == 2
    ensures exitCode == 2 ==> db.history == old(db.history)
    ensures exitCode == 0 && !old(lock.held) ==>
      && user.Some?
      && table.entries == []
      && db.history == if sweepAccepted then Swept(old(db.history), hostname, user.value) else old(db.history)
  {
    table := new ProcessTable();
    if lock.held {
      return 0, table;
    }
    lock.held := true;
    if user.None? {
      lock.held := false;
      return 2, table;
    }
    var main := new MainModules(user.value, hostname);
    var ret := main.DoNormal(table, db.adapters, spawn);
    var drained := WaitAll(main, table, runInterval);
    if !drained {
      lock.held := false;
      return 2, table;
    }
    main.SetForceTerminateStatus(db, sweepAccepted);
    lock.held := false;
    return 0, table;
  }
}
