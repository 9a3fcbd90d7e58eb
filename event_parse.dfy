/** `message_parse`, `eventinfo_parse` and the difference loop of
    `do_workflow`: the worker's three passes over one backend response.

    Each pass is a loop that appends to a list, as in the source; each is
    proved against a function that says what the list holds.
 */
module EventParse {
  import opened Outcomes
  import opened Text
  import opened Values
  import opened PathParser
  import opened EpochTime

  /** One `(instance, evtime)` pair of `confirm_list`. */
  datatype Confirm = Confirm(instance: Value, evtime: int)

  /** One `{'instance', 'evtime', 'evinfo'}` entry of `difference`. */
  datatype Diff = Diff(instance: Value, evtime: int, evinfo: seq<Value>)

  /** A configured path, split at its dots (`match_evtime.split('.')`). */
  function Path(spec: string): seq<string>
  {
    SplitOn(spec, {'.'})
  }

  /** `[convert_epoch_time(et) for et in vs]`, stopping at the first raise. */
  function ConvertAll(vs: seq<Value>): Call<seq<int>>
  {
    CallEach(ConvertEpochTime, vs)
  }

  /** `[f(v) for v in vs]` for a converter `f` that may raise. */
  function CallEach(f: Value -> Call<int>, vs: seq<Value>): Call<seq<int>>
  {
    if vs == [] then Returns([])
    else match CallEach(f, vs[..|vs| - 1])
      case Raises => Raises
      case Returns(ts) =>
        match f(vs[|vs| - 1])
        case Raises => Raises
        case Returns(t) => Returns(ts + [t])
  }

  lemma {:induction false} CallEachMeaning(f: Value -> Call<int>, vs: seq<Value>)
    ensures CallEach(f, vs).Returns? <==> forall i :: 0 <= i < |vs| ==> f(vs[i]).Returns?
    ensures CallEach(f, vs).Returns? ==>
      |CallEach(f, vs).value| == |vs| &&
      forall i :: 0 <= i < |vs| ==> f(vs[i]) == Returns(CallEach(f, vs).value[i])
  {
    if vs != [] {
      var init := vs[..|vs| - 1];
      CallEachMeaning(f, init);
      assert forall i :: 0 <= i < |init| ==> init[i] == vs[i];
    }
  }

  /** The conversion of a list succeeds exactly when every element
      converts, and then it holds each element's timestamp in order. */
  lemma ConvertAllMeaning(vs: seq<Value>)
    ensures ConvertAll(vs).Returns? <==> forall i :: 0 <= i < |vs| ==> ConvertEpochTime(vs[i]).Returns?
    ensures ConvertAll(vs).Returns? ==>
      |ConvertAll(vs).value| == |vs| &&
      forall i :: 0 <= i < |vs| ==> ConvertEpochTime(vs[i]) == Returns(ConvertAll(vs).value[i])
  {
    CallEachMeaning(ConvertEpochTime, vs);
  }

  /** The loop `for et in evtime_list_tmp: evtime_list.append(convert_epoch_time(et))`,
      which an exception leaves part-way. */
  method ConvertEach(vs: seq<Value>) returns (r: Call<seq<int>>)
    ensures r == ConvertAll(vs)
  {
    var evtimes: seq<int> := [];
    var i := 0;
    while i < |vs|
      invariant 0 <= i <= |vs|
      invariant ConvertAll(vs[..i]) == Returns(evtimes)
    {
      var c := ConvertEpochTime(vs[i]);
      assert vs[..i + 1][..i] == vs[..i];
      if c.Raises? {
        ConvertAllMeaning(vs);
        return Raises;
      }
      evtimes := evtimes + [c.value];
      i := i + 1;
    }
    assert vs[..i] == vs;
    return Returns(evtimes);
  }

  /** `list(zip(instance_list, evtime_list))` for lists of one length. */
  function Zip(instances: seq<Value>, times: seq<int>): (r: seq<Confirm>)
    requires |instances| == |times|
    ensures |r| == |instances|
  {
    seq(|instances|, i requires 0 <= i < |instances| => Confirm(instances[i], times[i]))
  }

  /** What `message_parse` answers: `(False, [])` when an extraction answers
      False, an exception when one raises or an event time does not
      convert, and otherwise `(True, pairs)` where the pairs are empty
      unless both lists are non-empty and of one length. */
  function MessageParseSpec(pull: Value, matchEvtime: string, matchInstance: string): Outcome<seq<Confirm>>
  {
    var ev := Extract(pull, Path(matchEvtime));
    if !Sized(pull) then Crash
    else if ev.status == Raised then Crash
    else if ev.status != Found then Fail
    else match ConvertAll(ev.values)
      case Raises => Crash
      case Returns(times) =>
        var inst := Extract(pull, Path(matchInstance));
        if inst.status == Raised then Crash
        else if inst.status != Found then Fail
        else if |times| > 0 && |times| == |inst.values| then Done(Zip(inst.values, times))
        else Done([])
  }

  /** `message_parse` as the source writes it (lines 330-369). */
  method MessageParse(pull: Value, matchEvtime: string, matchInstance: string) returns (r: Outcome<seq<Confirm>>)
    ensures r == MessageParseSpec(pull, matchEvtime, matchInstance)
  {
    if !Sized(pull) {
      return Crash;
    }
    var evtimeParse := Path(matchEvtime);
    assert evtimeParse[0..] == evtimeParse;
    var st, evtimeTmp := Parse(0, pull, evtimeParse, []);
    if st == Raised {
      return Crash;
    }
    if st != Found {
      return Fail;
    }
    assert evtimeTmp == Extract(pull, evtimeParse).values;
    var converted := ConvertEach(evtimeTmp);
    if converted.Raises? {
      return Crash;
    }
    var evtimes := converted.value;
    var instanceParse := Path(matchInstance);
    assert instanceParse[0..] == instanceParse;
    var st2, instances := Parse(0, pull, instanceParse, []);
    if st2 == Raised {
      return Crash;
    }
    if st2 != Found {
      return Fail;
    }
    assert instances == Extract(pull, instanceParse).values;
    var confirm: seq<Confirm> := [];
    if |evtimes| > 0 && |evtimes| == |instances| {
      confirm := Zip(instances, evtimes);
    }
    return Done(confirm);
  }

  /** A successful `message_parse` pairs the i-th instance with the
      timestamp of the i-th event time, instance first, when both lists
      are non-empty and of one length; otherwise it answers an empty list,
      which is not an error. */
  lemma MessageParsePairs(pull: Value, matchEvtime: string, matchInstance: string)
    requires MessageParseSpec(pull, matchEvtime, matchInstance).Done?
    ensures var ev := Extract(pull, Path(matchEvtime));
      var inst := Extract(pull, Path(matchInstance));
      var pairs := MessageParseSpec(pull, matchEvtime, matchInstance).value;
      && ev.status == Found && inst.status == Found
      && (pairs != [] <==> 0 < |ev.values| == |inst.values|)
      && (pairs != [] ==>
            |pairs| == |inst.values| &&
            forall i :: 0 <= i < |pairs| ==>
              pairs[i].instance == inst.values[i] && ConvertEpochTime(ev.values[i]) == Returns(pairs[i].evtime))
  {
    ConvertAllMeaning(Extract(pull, Path(matchEvtime)).values);
  }

  /** `message_parse` answers `(False, [])` exactly when one of the two
      extractions answers False and nothing raised before it. */
  lemma MessageParseFails(pull: Value, matchEvtime: string, matchInstance: string)
    ensures var ev := Extract(pull, Path(matchEvtime));
      var inst := Extract(pull, Path(matchInstance));
      MessageParseSpec(pull, matchEvtime, matchInstance).Fail? <==>
        Sized(pull) &&
        (ev.status == Returned(false) ||
         (ev.status == Found && ConvertAll(ev.values).Returns? && inst.status == Returned(false)))
  {
  }

  // ---------------------------------------------------------------------
  // eventinfo_parse

  /** The columns of the first `n` rules: one extraction per
      `datadog_response_key`, in rule order, stopping at the first that
      does not answer True. */
  function ColumnsUpTo(pull: Value, responseKeys: seq<string>, n: nat): (r: Outcome<seq<seq<Value>>>)
    requires n <= |responseKeys|
    ensures r.Done? ==> |r.value| == n
  {
    ColumnsBy(key => Extract(pull, Path(key)), responseKeys, n)
  }

  /** The same pass for any extraction `ex` of a rule's values. */
  function ColumnsBy(ex: string -> Extraction, responseKeys: seq<string>, n: nat): (r: Outcome<seq<seq<Value>>>)
    requires n <= |responseKeys|
    ensures r.Done? ==> |r.value| == n
  {
    if n == 0 then Done([])
    else match ColumnsBy(ex, responseKeys, n - 1)
      case Done(cols) =>
        var e := ex(responseKeys[n - 1]);
        if e.status == Raised then Crash
        else if e.status != Found then Fail
        else Done(cols + [e.values])
      case Fail => Fail
      case Crash => Crash
  }

  lemma {:induction false} ColumnsByMeaning(ex: string -> Extraction, responseKeys: seq<string>, n: nat)
    requires n <= |responseKeys|
    ensures ColumnsBy(ex, responseKeys, n).Done? <==>
      forall j :: 0 <= j < n ==> ex(responseKeys[j]).status == Found
    ensures ColumnsBy(ex, responseKeys, n).Done? ==>
      var cols := ColumnsBy(ex, responseKeys, n).value;
      |cols| == n && forall j :: 0 <= j < n ==> cols[j] == ex(responseKeys[j]).values
  {
    if n > 0 {
      ColumnsByMeaning(ex, responseKeys, n - 1);
    }
  }

  /** Column `j` is what the path of rule `j` finds; there is one column
      per rule exactly when every rule's extraction answers True. */
  lemma ColumnsMeaning(pull: Value, responseKeys: seq<string>, n: nat)
    requires n <= |responseKeys|
    ensures ColumnsUpTo(pull, responseKeys, n).Done? <==>
      forall j :: 0 <= j < n ==> Extract(pull, Path(responseKeys[j])).status == Found
    ensures ColumnsUpTo(pull, responseKeys, n).Done? ==>
      var cols := ColumnsUpTo(pull, responseKeys, n).value;
      |cols| == n && forall j :: 0 <= j < n ==> cols[j] == Extract(pull, Path(responseKeys[j])).values
  {
    ColumnsByMeaning(key => Extract(pull, Path(key)), responseKeys, n);
  }

  lemma {:induction false} ColumnsByStick(ex: string -> Extraction, responseKeys: seq<string>, k: nat, n: nat)
    requires k <= n <= |responseKeys|
    requires !ColumnsBy(ex, responseKeys, k).Done?
    ensures ColumnsBy(ex, responseKeys, n) == ColumnsBy(ex, responseKeys, k)
    decreases n - k
  {
    if n > k {
      ColumnsByStick(ex, responseKeys, k, n - 1);
    }
  }

  /** Once a rule fails, so does the whole pass. */
  lemma ColumnsStick(pull: Value, responseKeys: seq<string>, k: nat, n: nat)
    requires k <= n <= |responseKeys|
    requires !ColumnsUpTo(pull, responseKeys, k).Done?
    ensures ColumnsUpTo(pull, responseKeys, n) == ColumnsUpTo(pull, responseKeys, k)
  {
    ColumnsByStick(key => Extract(pull, Path(key)), responseKeys, k, n);
  }

  predicate SameLength(cols: seq<seq<Value>>)
  {
    forall j :: 0 <= j < |cols| ==> |cols[j]| == |cols[0]|
  }

  /** The first loop of `eventinfo_parse` (lines 385-395): one extraction
      per rule into `evinfo_tmp_list`, leaving at the first that does not
      answer True. */
  method ParseColumns(pull: Value, responseKeys: seq<string>) returns (r: Outcome<seq<seq<Value>>>)
    ensures r == ColumnsUpTo(pull, responseKeys, |responseKeys|)
  {
    var evinfoTmp: seq<seq<Value>> := [];
    var k := 0;
    while k < |responseKeys|
      invariant 0 <= k <= |responseKeys|
      invariant ColumnsUpTo(pull, responseKeys, k) == Done(evinfoTmp)
    {
      var e := ParseRule(pull, responseKeys[k]);
      ColumnsNext(pull, responseKeys, k, evinfoTmp, e);
      if e.status != Found {
        ColumnsStick(pull, responseKeys, k + 1, |responseKeys|);
        if e.status == Raised {
          return Crash;
        }
        return Fail;
      }
      evinfoTmp := evinfoTmp + [e.values];
      k := k + 1;
    }
    return Done(evinfoTmp);
  }

  /** One more rule: its extraction `e` extends the columns, or ends the
      pass with False or with the exception. */
  lemma ColumnsNext(pull: Value, responseKeys: seq<string>, k: nat, cols: seq<seq<Value>>, e: Extraction)
    requires k < |responseKeys| && ColumnsUpTo(pull, responseKeys, k) == Done(cols)
    requires e == Extract(pull, Path(responseKeys[k]))
    ensures ColumnsUpTo(pull, responseKeys, k + 1) ==
      if e.status == Raised then Crash else if e.status != Found then Fail else Done(cols + [e.values])
  {
    var ex := key => Extract(pull, Path(key));
    assert ColumnsBy(ex, responseKeys, k) == Done(cols);
    assert ex(responseKeys[k]) == e;
  }

  /** One rule's `_parser(0, pull_data, key_list, [])` call. */
  method ParseRule(pull: Value, responseKey: string) returns (e: Extraction)
    ensures e == Extract(pull, Path(responseKey))
  {
    var keys := Path(responseKey);
    assert keys[0..] == keys;
    var st, tmp := Parse(0, pull, keys, []);
    return Extraction(st, tmp);
  }

  /** The second loop (lines 398-402): `ev_len` is the common length of
      the columns, or the check fails at the first column whose length
      differs from the first column's. */
  method CommonLength(cols: seq<seq<Value>>) returns (ok: bool, evLen: nat)
    ensures ok <==> SameLength(cols)
    ensures ok ==> evLen == if cols == [] then 0 else |cols[0]|
  {
    evLen := 0;
    var c := 0;
    while c < |cols|
      invariant 0 <= c <= |cols|
      invariant forall j :: 0 <= j < c ==> |cols[j]| == |cols[0]|
      invariant evLen == if c == 0 then 0 else |cols[0]|
    {
      evLen := |cols[c]|;
      if |cols[c]| != |cols[0]| {
        return false, evLen;
      }
      c := c + 1;
    }
    return true, evLen;
  }

  /** The third loop (lines 405-410): row `i` holds the `i`-th value of
      every column, in column order. */
  method Transpose(cols: seq<seq<Value>>, evLen: nat) returns (rows: seq<seq<Value>>)
    requires forall j :: 0 <= j < |cols| ==> evLen <= |cols[j]|
    ensures |rows| == evLen
    ensures forall i :: 0 <= i < evLen ==>
      |rows[i]| == |cols| && forall j :: 0 <= j < |cols| ==> rows[i][j] == cols[j][i]
  {
    rows := [];
    var i := 0;
    while i < evLen
      invariant 0 <= i <= evLen
      invariant |rows| == i
      invariant forall a :: 0 <= a < i ==>
        |rows[a]| == |cols| && forall j :: 0 <= j < |cols| ==> rows[a][j] == cols[j][a]
    {
      var row: seq<Value> := [];
      var j := 0;
      while j < |cols|
        invariant 0 <= j <= |cols|
        invariant |row| == j
        invariant forall b :: 0 <= b < j ==> row[b] == cols[b][i]
      {
        row := row + [cols[j][i]];
        j := j + 1;
      }
      rows := rows + [row];
      i := i + 1;
    }
  }

  /** Row `i` of equally long columns: the `i`-th value of each column. */
  function Rows(cols: seq<seq<Value>>): seq<seq<Value>>
    requires SameLength(cols)
  {
    var n := if cols == [] then 0 else |cols[0]|;
    seq(n, i requires 0 <= i < n => seq(|cols|, j requires 0 <= j < |cols| => cols[j][i]))
  }

  /** What `eventinfo_parse` answers (lines 372-417): the log line at line
      378 raises on data without a length, a failed extraction answers
      `(False, [])` and a raising one raises, columns of unequal length
      answer `(False, [])`, and otherwise the rows of the columns. */
  function EventInfo(pull: Value, responseKeys: seq<string>): Outcome<seq<seq<Value>>>
  {
    if !Sized(pull) then Crash
    else match ColumnsUpTo(pull, responseKeys, |responseKeys|)
      case Done(cols) => if SameLength(cols) then Done(Rows(cols)) else Fail
      case Fail => Fail
      case Crash => Crash
  }

  /** `eventinfo_parse` as the source writes it. */
  method EventInfoParse(pull: Value, responseKeys: seq<string>) returns (r: Outcome<seq<seq<Value>>>)
    ensures r == EventInfo(pull, responseKeys)
  {
    if !Sized(pull) {
      return Crash;
    }
    var cols := ParseColumns(pull, responseKeys);
    if !cols.Done? {
      return cols;
    }
    var ok, evLen := CommonLength(cols.value);
    if !ok {
      return Fail;
    }
    var rows := Transpose(cols.value, evLen);
    assert forall i :: 0 <= i < evLen ==> rows[i] == Rows(cols.value)[i];
    assert rows == Rows(cols.value);
    return Done(rows);
  }

  /** A successful `eventinfo_parse` found every rule's column, and all of
      them equally long; it has as many rows as that common length, each
      row holds one value per rule, and entry `j` of row `i` is the `i`-th
      value the path of rule `j` found. */
  lemma EventInfoRows(pull: Value, responseKeys: seq<string>)
    requires EventInfo(pull, responseKeys).Done?
    ensures var rows := EventInfo(pull, responseKeys).value;
      && (forall j :: 0 <= j < |responseKeys| ==> Extract(pull, Path(responseKeys[j])).status == Found)
      && (forall j :: 0 <= j < |responseKeys| ==>
            |Extract(pull, Path(responseKeys[j])).values| == |rows|)
      && forall i :: 0 <= i < |rows| ==>
           |rows[i]| == |responseKeys| &&
           forall j :: 0 <= j < |responseKeys| ==> rows[i][j] == Extract(pull, Path(responseKeys[j])).values[i]
  {
    ColumnsMeaning(pull, responseKeys, |responseKeys|);
  }

  /** `eventinfo_parse` answers `(False, [])` exactly when a rule's path
      answers False before any raises, or when every rule's path answers
      True but two columns differ in length; with no rules it answers no
      rows. */
  lemma EventInfoFails(pull: Value, responseKeys: seq<string>)
    requires Sized(pull)
    ensures (forall j :: 0 <= j < |responseKeys| ==> Extract(pull, Path(responseKeys[j])).status == Found) ==>
      (EventInfo(pull, responseKeys).Fail? <==>
         exists j :: 0 <= j < |responseKeys| &&
           |Extract(pull, Path(responseKeys[j])).values| != |Extract(pull, Path(responseKeys[0])).values|)
    ensures responseKeys == [] ==> EventInfo(pull, responseKeys) == Done([])
  {
    ColumnsMeaning(pull, responseKeys, |responseKeys|);
    if forall j :: 0 <= j < |responseKeys| ==> Extract(pull, Path(responseKeys[j])).status == Found {
      var cols := ColumnsUpTo(pull, responseKeys, |responseKeys|).value;
      assert forall j :: 0 <= j < |responseKeys| ==> |cols[j]| == |Extract(pull, Path(responseKeys[j])).values|;
      if !SameLength(cols) {
        var j :| 0 <= j < |cols| && |cols[j]| != |cols[0]|;
        assert |Extract(pull, Path(responseKeys[j])).values| != |Extract(pull, Path(responseKeys[0])).values|;
        assert EventInfo(pull, responseKeys) == Fail;
      } else {
        assert EventInfo(pull, responseKeys) == Done(Rows(cols));
        assert forall j :: 0 <= j < |responseKeys| ==>
          |Extract(pull, Path(responseKeys[j])).values| == |cols[j]| == |cols[0]| == |Extract(pull, Path(responseKeys[0])).values|;
        if responseKeys == [] {
          assert |Rows(cols)| == 0;
        }
      }
    }
  }

  // ---------------------------------------------------------------------
  // the difference loop of do_workflow

  /** The positions among the first `n` whose flag is set, in order. */
  function Flagged(flags: seq<bool>, n: nat): (idx: seq<nat>)
    requires n <= |flags|
    ensures forall k :: 0 <= k < |idx| ==> idx[k] < n
  {
    if n == 0 then [] else Flagged(flags, n - 1) + (if flags[n - 1] then [n - 1] else [])
  }

  /** `Flagged` lists exactly the set positions, each once, increasing. */
  lemma {:induction false} FlaggedMeaning(flags: seq<bool>, n: nat)
    requires n <= |flags|
    ensures forall k :: 0 <= k < |Flagged(flags, n)| ==> Flagged(flags, n)[k] < n && flags[Flagged(flags, n)[k]]
    ensures forall k, l :: 0 <= k < l < |Flagged(flags, n)| ==> Flagged(flags, n)[k] < Flagged(flags, n)[l]
    ensures forall i :: 0 <= i < n && flags[i] ==> i in Flagged(flags, n)
  {
    if n > 0 {
      FlaggedMeaning(flags, n - 1);
    }
  }

  lemma {:induction false} FlaggedNone(flags: seq<bool>, n: nat)
    requires n <= |flags|
    requires forall i :: 0 <= i < n ==> !flags[i]
    ensures Flagged(flags, n) == []
  {
    if n > 0 {
      FlaggedNone(flags, n - 1);
    }
  }

  /** The loop over the first `n` flags: a set flag appends the entry
      built from `confirm_list[index]` and the event-info row, and raises
      when `confirm_list` has no such index. */
  function DiffUpTo(flags: seq<bool>, evinfo: seq<seq<Value>>, confirm: seq<Confirm>, n: nat): Call<seq<Diff>>
    requires n <= |flags| == |evinfo|
  {
    if n == 0 then Returns([])
    else match DiffUpTo(flags, evinfo, confirm, n - 1)
      case Raises => Raises
      case Returns(ds) =>
        if !flags[n - 1] then Returns(ds)
        else if n - 1 < |confirm| then
          Returns(ds + [Diff(confirm[n - 1].instance, confirm[n - 1].evtime, evinfo[n - 1])])
        else Raises
  }

  lemma {:induction false} DiffSticks(flags: seq<bool>, evinfo: seq<seq<Value>>, confirm: seq<Confirm>, k: nat, n: nat)
    requires k <= n <= |flags| == |evinfo|
    requires DiffUpTo(flags, evinfo, confirm, k).Raises?
    ensures DiffUpTo(flags, evinfo, confirm, n).Raises?
    decreases n - k
  {
    if n > k {
      DiffSticks(flags, evinfo, confirm, k, n - 1);
    }
  }

  /** Lines 497-509: nothing is built unless there is one flag per
      event-info row. */
  function Difference(flags: seq<bool>, evinfo: seq<seq<Value>>, confirm: seq<Confirm>): Call<seq<Diff>>
  {
    if |flags| != |evinfo| then Returns([]) else DiffUpTo(flags, evinfo, confirm, |flags|)
  }

  /** The entry for position `i`. */
  function DiffAt(evinfo: seq<seq<Value>>, confirm: seq<Confirm>, i: nat): Diff
    requires i < |evinfo| && i < |confirm|
  {
    Diff(confirm[i].instance, confirm[i].evtime, evinfo[i])
  }

  /** The difference holds, in order, one entry per set flag and nothing
      else; it raises exactly when a set flag has no `confirm_list` entry. */
  lemma {:induction false} DiffUpToMeaning(flags: seq<bool>, evinfo: seq<seq<Value>>, confirm: seq<Confirm>, n: nat)
    requires n <= |flags| == |evinfo|
    ensures var idx := Flagged(flags, n);
      DiffUpTo(flags, evinfo, confirm, n).Returns? <==> forall k :: 0 <= k < |idx| ==> idx[k] < |confirm|
    ensures var idx := Flagged(flags, n);
      DiffUpTo(flags, evinfo, confirm, n).Returns? ==>
        var ds := DiffUpTo(flags, evinfo, confirm, n).value;
        |ds| == |idx| && forall k :: 0 <= k < |idx| ==> idx[k] < |confirm| && ds[k] == DiffAt(evinfo, confirm, idx[k])
  {
    if n > 0 {
      DiffUpToMeaning(flags, evinfo, confirm, n - 1);
      var idx := Flagged(flags, n - 1);
      if flags[n - 1] {
        var idx' := idx + [n - 1];
        assert Flagged(flags, n) == idx';
        assert idx'[|idx|] == n - 1;
        assert forall k :: 0 <= k < |idx| ==> idx'[k] == idx[k];
        if DiffUpTo(flags, evinfo, confirm, n - 1).Returns? && n - 1 < |confirm| {
          var ds := DiffUpTo(flags, evinfo, confirm, n - 1).value;
          var ds' := ds + [DiffAt(evinfo, confirm, n - 1)];
          assert DiffUpTo(flags, evinfo, confirm, n) == Returns(ds');
          assert forall k :: 0 <= k < |ds| ==> ds'[k] == ds[k];
        }
      } else {
        assert Flagged(flags, n) == idx;
      }
    }
  }

  /** The difference when there is one flag per row. */
  lemma DifferenceMeaning(flags: seq<bool>, evinfo: seq<seq<Value>>, confirm: seq<Confirm>)
    requires |flags| == |evinfo|
    ensures var idx := Flagged(flags, |flags|);
      Difference(flags, evinfo, confirm).Returns? <==> forall k :: 0 <= k < |idx| ==> idx[k] < |confirm|
    ensures var idx := Flagged(flags, |flags|);
      Difference(flags, evinfo, confirm).Returns? ==>
        var ds := Difference(flags, evinfo, confirm).value;
        |ds| == |idx| && forall k :: 0 <= k < |idx| ==> idx[k] < |confirm| && ds[k] == DiffAt(evinfo, confirm, idx[k])
  {
    DiffUpToMeaning(flags, evinfo, confirm, |flags|);
  }

  /** With no flag set, or flags that do not line up with the rows, the
      difference is empty. */
  lemma {:induction false} DifferenceEmpty(flags: seq<bool>, evinfo: seq<seq<Value>>, confirm: seq<Confirm>)
    requires |flags| != |evinfo| || forall i :: 0 <= i < |flags| ==> !flags[i]
    ensures Difference(flags, evinfo, confirm) == Returns([])
  {
    if |flags| == |evinfo| {
      DifferenceMeaning(flags, evinfo, confirm);
      FlaggedNone(flags, |flags|);
    }
  }

  /** The difference loop as the source writes it (lines 493-506). */
  method BuildDifference(flags: seq<bool>, evinfo: seq<seq<Value>>, confirm: seq<Confirm>) returns (r: Call<seq<Diff>>)
    ensures r == Difference(flags, evinfo, confirm)
  {
    var difference: seq<Diff> := [];
    if |flags| == |evinfo| {
      var index := 0;
      while index < |flags|
        invariant 0 <= index <= |flags|
        invariant DiffUpTo(flags, evinfo, confirm, index) == Returns(difference)
      {
        if flags[index] {
          if index >= |confirm| {
            DiffSticks(flags, evinfo, confirm, index + 1, |flags|);
            return Raises;
          }
          difference := difference + [Diff(confirm[index].instance, confirm[index].evtime, evinfo[index])];
        }
        index := index + 1;
      }
    }
    return Returns(difference);
  }
}
