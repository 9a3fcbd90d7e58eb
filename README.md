# Datadog monitoring adapter of OASE, modelled in Dafny

OASE's Datadog monitoring adapter is made of two Python scripts that share
two database tables.

- The **supervisor** (`Datadog_monitoring.py`) holds an exclusive lock file.
  It starts one worker process per idle adapter (`status_flag` not positive).
  It then observes the process table until every worker has exited, with a
  sleep of `int(RUN_INTERVAL)` seconds between observations. Last, it
  sweeps this host's history rows that are still PROCESSING to
  FORCE_PROCESSED (4).
- The **worker** (`Datadog_monitoring_sub.py`) runs one monitoring cycle for
  one adapter:
  - It reads the adapter. The monitoring window starts at the latest
    PROCESSED window end, or at the adapter's own timestamp when there is none.
  - It opens a PROCESSING (1) history row.
  - It asks the Datadog backend for active triggers between the window start
    and now. On a conflict flag it sets the adapter busy with an optimistic
    compare-and-set.
  - It parses the response with the adapter's configured dotted paths:
    instance, event time, and one path per rule condition.
  - It builds the difference: the events whose trigger flag is set.
  - It formats and sends them, then closes the history row as PROCESSED (2)
    or SERVER_ERROR (3).

The model is split into modules that follow this structure:

| file | module | what it models |
|---|---|---|
| `outcomes.dfy` | `Outcomes` | return / `(False, [])` / exception as datatypes |
| `values.dfy` | `Values` | decoded JSON values; `d[k]`, iteration, `len()` |
| `text.dfy` | `Text` | the Python `str` and `int()` behaviour the scripts rely on |
| `path_parser.dfy` | `PathParser` | `_parser`: the extractor for dotted paths with `[]` and `[n]` |
| `calendar.dfy` | `Calendar` | `datetime` validity, `timestamp()` and `strftime` |
| `epoch_time.dfy` | `EpochTime` | `convert_epoch_time` |
| `event_parse.dfy` | `EventParse` | `message_parse`, `eventinfo_parse`, the difference loop |
| `database.dfy` | `Database` | the adapter and history tables as a `Store` class |
| `worker.dfy` | `Worker` | `execute` and `do_workflow` (class `SubModules`) |
| `supervisor.dfy` | `Supervisor` | the process table, `do_normal`, `observe_subprocess`, the sweep and the main block (class `MainModules`) |

How the model is built:

- Every loop of the source is a Dafny loop, each proved against a function
  that says what the loop computes.
  - The recursive `_parser` is a method with the recursion of the source.
    Its fan-out loop is a second method.
  - The state the scripts change in place is kept in class fields:
    - the database tables (`Database.Store`);
    - the process table `aryPCB` (`Supervisor.ProcessTable`);
    - the lock file (`Supervisor.LockFile`).
- The collaborators whose code is not part of this model are oracle
  functions:
  - the Datadog API;
  - `ManageTrigger.main`;
  - `message_formatting`;
  - `send_request`;
  - the process launcher;
  - the outcome of each database write.

  Each oracle may return or raise. No precondition excludes an error path.
- `datetime.now()` is a parameter (`Worker.Clock`).
- Time in the supervisor counts observation rounds: a worker handle records
  the round in which `poll()` first reports its exit.

Behaviour worth knowing, as the code has it:

- A trigger conflict from the backend makes `execute` answer
  `result = False`. `do_workflow` then closes the row as SERVER_ERROR
  (`Worker.ConflictIsServerError`). It is not a silent skip.
- When the extracted event times and instances differ in length,
  `message_parse` answers True with no pairs. The cycle then ends PROCESSED
  and sends nothing, because the difference is empty
  (`EventParse.MessageParsePairs`, `Worker.EmptyDifferenceIsProcessed`).
- An offset `+HH:MM` is subtracted and `-HH:MM` is added. This is the
  correct conversion to UTC (`EpochTime.OffsetRoundTrip`).
- `[]` over a dict iterates its keys, and over a string its characters.
- A final `[]` appends every element and then the whole container
  (`PathParser.LastFanOutOverList`).
- `[n]` on a value without `len()` raises, inside the log line itself
  (`PathParser.IndexOnNonList`).
- `message_parse` and `eventinfo_parse` raise on data without a length, at
  their first log line.
- The sweep assigns `last_update_datetime`, which is not a column. The
  sweep's timestamp therefore stays as it was. `Database.Swept` keeps it
  unchanged.

## Model

| member | source | states |
|---|---|---|
| Values.Lookup | oase-root/backyards/monitoring_adapter/Datadog_monitoring_sub.py:270-274 | `k in d` fails exactly when no entry has key `k`; otherwise `d[k]` is a value stored under `k` |
| Values.Members | oase-root/backyards/monitoring_adapter/Datadog_monitoring_sub.py:241 | `for dt in data_tmp` is defined exactly for lists, dicts and strings |
| Text.PyInt | oase-root/backyards/monitoring_adapter/Datadog_monitoring_sub.py:289-291 | `int(s)` for a string; its meaning is proved by `Text.PyIntShow`, `Text.PyIntDigits` and `Text.PyIntRejects` |
| Text.PyIntShow | oase-root/backyards/monitoring_adapter/Datadog_monitoring_sub.py:289-291 | `int(str(n)) == n` for every integer, negative ones included |
| Text.PyIntDigits | oase-root/backyards/monitoring_adapter/Datadog_monitoring_sub.py:252-256 | `int()` of a non-empty digit string is its decimal value |
| Text.PyIntRejects | oase-root/backyards/monitoring_adapter/Datadog_monitoring_sub.py:289-294 | one character that is not a digit, underscore, sign or space makes `int()` raise |
| Text.DigitsRoundTrip | oase-root/backyards/monitoring_adapter/Datadog_monitoring_sub.py:289-291 | the decimal text of `n` has value `n` |
| Text.DigitsInjective | oase-root/backyards/monitoring_adapter/Datadog_monitoring_sub.py:252-256 | two digit strings of one length and one value are equal |
| Text.SplitJoin | oase-root/backyards/monitoring_adapter/Datadog_monitoring_sub.py:346 | joining the pieces of `s.split(c)` with `c` gives `s` back |
| Text.SplitNoSep | oase-root/backyards/monitoring_adapter/Datadog_monitoring_sub.py:318-320 | splitting text without a separator gives the text as the only piece |
| Text.SplitAtFirst | oase-root/backyards/monitoring_adapter/Datadog_monitoring_sub.py:309 | the first piece of a split ends at the first separator |
| Text.ReplaceSkip | oase-root/backyards/monitoring_adapter/Datadog_monitoring_sub.py:299-303 | `replace` leaves a prefix without the pattern alone and continues after it |
| Text.ReplaceFirst | oase-root/backyards/monitoring_adapter/Datadog_monitoring_sub.py:299 | `replace` with a count rewrites the first occurrence and counts it |
| Text.ReplaceAbsent | oase-root/backyards/monitoring_adapter/Datadog_monitoring_sub.py:302-303 | `replace` of an absent pattern changes nothing |
| Text.ReplaceNone | oase-root/backyards/monitoring_adapter/Datadog_monitoring_sub.py:299 | `replace` with count 0 changes nothing |
| Text.UnderscoresGone | oase-root/backyards/monitoring_adapter/Datadog_monitoring_sub.py:290 | removing the underscores of a digit-and-underscore body leaves only digits |
| PathParser.Extract | oase-root/backyards/monitoring_adapter/Datadog_monitoring_sub.py:232-281 | the reference semantics of `_parser(0, v, keys, parse_list)`, segment by segment; `PathParser.Parse` ties the loop to it, and `FanOutFound`, `IndexStep`, `KeyStep` and `PathConcat` state what it finds |
| PathParser.ExtractFanOut | oase-root/backyards/monitoring_adapter/Datadog_monitoring_sub.py:239-247 | a `[]` segment runs the rest of the path on every member; `PathParser.FanOutFound`, `FanOutRaises` and `FanOutFirstFailure` state its answers |
| PathParser.ExtractIndex | oase-root/backyards/monitoring_adapter/Datadog_monitoring_sub.py:249-264 | a `[n]` segment; `PathParser.IndexStep` and `PathParser.IndexOnNonList` state its answers |
| PathParser.ExtractKey | oase-root/backyards/monitoring_adapter/Datadog_monitoring_sub.py:266-275 | a key segment; `PathParser.KeyStep` states its answers |
| PathParser.Combine | oase-root/backyards/monitoring_adapter/Datadog_monitoring_sub.py:241-244 | the element calls of a fan-out in order, stopping at the first that does not answer True; `PathParser.CombineFound` and `CombineFirstFailure` state its meaning |
| PathParser.Parse | oase-root/backyards/monitoring_adapter/Datadog_monitoring_sub.py:232-281 | `_parser` ends with the status of `Extract`, and `parse_list` gains exactly `Extract`'s values |
| PathParser.ParseElements | oase-root/backyards/monitoring_adapter/Datadog_monitoring_sub.py:241-247 | the fan-out loop ends with the combined status of the element calls and appends their values in order |
| PathParser.CombineFound | oase-root/backyards/monitoring_adapter/Datadog_monitoring_sub.py:241-245 | a fan-out succeeds iff every element call does, and then appends the element results in order |
| PathParser.CombineFirstFailure | oase-root/backyards/monitoring_adapter/Datadog_monitoring_sub.py:242-244 | the first failing element decides the answer; appends up to and including it are kept |
| PathParser.CombineSnoc | oase-root/backyards/monitoring_adapter/Datadog_monitoring_sub.py:241-244 | after successful calls, one more element call adds its status and its values |
| PathParser.CombineStops | oase-root/backyards/monitoring_adapter/Datadog_monitoring_sub.py:243-244 | once an element call fails, later elements change nothing |
| PathParser.FanOutRaises | oase-root/backyards/monitoring_adapter/Datadog_monitoring_sub.py:241 | `[]` over a value that cannot be iterated raises and appends nothing |
| PathParser.FanOutFound | oase-root/backyards/monitoring_adapter/Datadog_monitoring_sub.py:239-247 | `[]` succeeds iff the rest of the path succeeds on every member; the values are the members' results, plus the container when `[]` is last |
| PathParser.FanOutFirstFailure | oase-root/backyards/monitoring_adapter/Datadog_monitoring_sub.py:242-244 | `[]` answers like the first member whose rest of the path fails |
| PathParser.LastFanOutOverList | oase-root/backyards/monitoring_adapter/Datadog_monitoring_sub.py:239-247 | a final `[]` over a list appends each item and then the list itself |
| PathParser.IndexStep | oase-root/backyards/monitoring_adapter/Datadog_monitoring_sub.py:249-264 | `[n]` on a list continues with the nth item, or answers False when `n` is out of range |
| PathParser.IndexOnNonList | oase-root/backyards/monitoring_adapter/Datadog_monitoring_sub.py:258-261 | `[n]` on a non-list answers False when it has a length and raises otherwise |
| PathParser.KeyStep | oase-root/backyards/monitoring_adapter/Datadog_monitoring_sub.py:266-275 | a plain segment continues with `d[k]`, or answers False on a non-dict or a missing key |
| PathParser.PathConcat | oase-root/backyards/monitoring_adapter/Datadog_monitoring_sub.py:232-281 | a path without `[]` finds at most one value and composes: extracting `a + b` is extracting `b` from the result of `a` |
| Calendar.Epoch | oase-root/backyards/monitoring_adapter/Datadog_monitoring_sub.py:322-325 | `timestamp()` of a reading taken as UTC; `Calendar.EpochInRange` bounds it by `datetime`'s range |
| Calendar.IsoPrefix | oase-root/backyards/monitoring_adapter/Datadog_monitoring_sub.py:471 | the `%Y-%m-%dT%H:%M:%S` part of the window text, 19 characters; `EpochTime.IsoRoundTrip` proves it converts to `Epoch` with any digit fraction and `Z` |
| Calendar.IsoText | oase-root/backyards/monitoring_adapter/Datadog_monitoring_sub.py:467-473 | the `%Y-%m-%dT%H:%M:%S.000Z` text of the window ends, 24 characters; `EpochTime.StrftimeRoundTrip` proves it converts back to `Epoch` |
| Calendar.EpochInRange | oase-root/backyards/monitoring_adapter/Datadog_monitoring_sub.py:325 | `timestamp()` of every valid datetime lies between those of 0001-01-01 00:00:00 and 9999-12-31 23:59:59 |
| Calendar.DaysBeforeYearStep | oase-root/backyards/monitoring_adapter/Datadog_monitoring_sub.py:325 | the day count before year `y + 1` is that before `y` plus the days of `y`, under the Gregorian leap rule |
| Calendar.DaysBeforeYearBelow | oase-root/backyards/monitoring_adapter/Datadog_monitoring_sub.py:325 | day counts before years 1 to 10000 are non-negative and at most the count before 10000 |
| Calendar.Pad2 | oase-root/backyards/monitoring_adapter/Datadog_monitoring_sub.py:471 | a `%m`, `%d`, `%H`, `%M` or `%S` field is two digits of the field's value |
| Calendar.Pad4 | oase-root/backyards/monitoring_adapter/Datadog_monitoring_sub.py:471 | a `%Y` field is four digits of the year |
| EpochTime.ConvertEpochTime | oase-root/backyards/monitoring_adapter/Datadog_monitoring_sub.py:284-327 | `convert_epoch_time`: integers pass through and bools become 1 or 0, strings that `int()` refuses take the date-time path, other values raise; `IntegersPassThrough`, `IsoRoundTrip`, `OffsetRoundTrip` and `ConvertTextSound` state its meaning |
| EpochTime.ConvertText | oase-root/backyards/monitoring_adapter/Datadog_monitoring_sub.py:297-327 | the date-time path: rewrite, read the offset, cut, parse, shift; `EpochTime.ConvertTextSound` and `ConvertTextFrom` state its meaning |
| EpochTime.Normalise | oase-root/backyards/monitoring_adapter/Datadog_monitoring_sub.py:297-303 | the three `replace` rewrites; `EpochTime.NormaliseIso`, `NormaliseIsoZulu` and `NormaliseIsoOffset` state what they do to an ISO text |
| EpochTime.OffsetSeconds | oase-root/backyards/monitoring_adapter/Datadog_monitoring_sub.py:306-315 | the seconds a trailing `±HH:MM` adds; `EpochTime.OffsetRead` and `ReadOffsetFields` state them |
| EpochTime.WallCut | oase-root/backyards/monitoring_adapter/Datadog_monitoring_sub.py:318-320 | the cuts at the first `+`, `-` and `.`; `EpochTime.WallCutPlain` and `WallCutOffset` state what is left |
| EpochTime.IntegersPassThrough | oase-root/backyards/monitoring_adapter/Datadog_monitoring_sub.py:289-291 | an integer, and the decimal text of one, convert to that integer |
| EpochTime.StrftimeRoundTrip | oase-root/backyards/monitoring_adapter/Datadog_monitoring_sub.py:471-472 | converting `strftime('%Y-%m-%dT%H:%M:%S.000Z')` of a datetime gives its timestamp |
| EpochTime.IsoRoundTrip | oase-root/backyards/monitoring_adapter/Datadog_monitoring_sub.py:297-325 | `YYYY-MM-DDTHH:MM:SS[.digits]Z` converts to the timestamp of that UTC reading |
| EpochTime.OffsetRoundTrip | oase-root/backyards/monitoring_adapter/Datadog_monitoring_sub.py:305-325 | with `+HH:MM` the offset is subtracted, with `-HH:MM` added, and the result must stay in `datetime`'s range |
| EpochTime.ConvertTextSound | oase-root/backyards/monitoring_adapter/Datadog_monitoring_sub.py:297-327 | a non-integer string converts only when the rewritten, cut text is the zero-padded wall clock of a valid datetime; the result is its timestamp plus the offset, in range |
| EpochTime.ConvertTextFrom | oase-root/backyards/monitoring_adapter/Datadog_monitoring_sub.py:317-325 | a parsed wall clock and a read offset give the shifted timestamp |
| EpochTime.ParseWallClock | oase-root/backyards/monitoring_adapter/Datadog_monitoring_sub.py:321 | whatever `strptime('%Y/%m/%d %H:%M:%S')` accepts is a valid datetime |
| EpochTime.ParseWallText | oase-root/backyards/monitoring_adapter/Datadog_monitoring_sub.py:321 | `strptime` reads the `%Y/%m/%d %H:%M:%S` text of a datetime back as that datetime |
| EpochTime.WallTextOnly | oase-root/backyards/monitoring_adapter/Datadog_monitoring_sub.py:321 | every text `strptime` accepts is the `%Y/%m/%d %H:%M:%S` text of what it read |
| EpochTime.Shift | oase-root/backyards/monitoring_adapter/Datadog_monitoring_sub.py:322 | adding the `timedelta` succeeds exactly when the sum stays in `datetime`'s range, and then gives the sum |
| EpochTime.IsoNotInteger | oase-root/backyards/monitoring_adapter/Datadog_monitoring_sub.py:289-294 | text that starts as an ISO date-time is not an integer for `int()` |
| EpochTime.IsoDatePrefix | oase-root/backyards/monitoring_adapter/Datadog_monitoring_sub.py:298 | a zero-padded `YYYY-MM-DD` start matches the date pattern |
| EpochTime.ReplaceDateDashes | oase-root/backyards/monitoring_adapter/Datadog_monitoring_sub.py:299 | `replace('-', '/', 2)` rewrites just the date's two dashes |
| EpochTime.ReplaceIsoT | oase-root/backyards/monitoring_adapter/Datadog_monitoring_sub.py:302 | `replace('T', ' ')` turns the ISO separator into the space `strptime` expects |
| EpochTime.NormaliseIso | oase-root/backyards/monitoring_adapter/Datadog_monitoring_sub.py:298-303 | the three rewrites turn an ISO prefix into the wall-clock text, and act on the rest only by dropping `Z` |
| EpochTime.NormaliseIsoClean | oase-root/backyards/monitoring_adapter/Datadog_monitoring_sub.py:298-303 | the rewrites leave a rest without `T` or `Z` untouched |
| EpochTime.NormaliseIsoZulu | oase-root/backyards/monitoring_adapter/Datadog_monitoring_sub.py:302-303 | a trailing `Z` after the fraction is dropped |
| EpochTime.NormaliseIsoOffset | oase-root/backyards/monitoring_adapter/Datadog_monitoring_sub.py:298-303 | the rewrites keep the fraction and the offset text |
| EpochTime.NoSignNoOffset | oase-root/backyards/monitoring_adapter/Datadog_monitoring_sub.py:308 | text without a sign does not match the offset pattern |
| EpochTime.WallCutPlain | oase-root/backyards/monitoring_adapter/Datadog_monitoring_sub.py:306-320 | without an offset the offset is zero and the cuts leave the wall clock |
| EpochTime.WallCutOffset | oase-root/backyards/monitoring_adapter/Datadog_monitoring_sub.py:318-320 | the cuts at `+`, `-` and `.` remove the fraction and the offset |
| EpochTime.OffsetFound | oase-root/backyards/monitoring_adapter/Datadog_monitoring_sub.py:308 | a trailing `±HH:MM` with hours below 24 and minutes below 60 matches the offset pattern |
| EpochTime.PlusOnlyInSign | oase-root/backyards/monitoring_adapter/Datadog_monitoring_sub.py:313 | `'+' in val` holds exactly when the offset sign is `+` |
| EpochTime.OffsetPieces | oase-root/backyards/monitoring_adapter/Datadog_monitoring_sub.py:309 | `re.split('[+-]', val)[1]` is the `HH:MM` of the offset |
| EpochTime.OffsetFields | oase-root/backyards/monitoring_adapter/Datadog_monitoring_sub.py:310-311 | `HH:MM` splits at the colon into two fields that read back as the hours and minutes |
| EpochTime.ReadOffsetFields | oase-root/backyards/monitoring_adapter/Datadog_monitoring_sub.py:309-315 | the offset read from `HH:MM` is `±(HH*3600 + MM*60)` seconds, negated for `+` |
| EpochTime.OffsetRead | oase-root/backyards/monitoring_adapter/Datadog_monitoring_sub.py:306-315 | the offset of wall text followed by `±HH:MM` is subtracted for `+` and added for `-` |
| EpochTime.OffsetNormalised | oase-root/backyards/monitoring_adapter/Datadog_monitoring_sub.py:298-315 | after the rewrites the offset of an ISO text with `±HH:MM` is still read as that offset |
| EpochTime.WallNormalised | oase-root/backyards/monitoring_adapter/Datadog_monitoring_sub.py:298-321 | after the rewrites and the cuts, an ISO text with `±HH:MM` parses as its wall clock |
| EventParse.MessageParseSpec | oase-root/backyards/monitoring_adapter/Datadog_monitoring_sub.py:330-369 | what `message_parse` answers; `EventParse.MessageParsePairs` and `MessageParseFails` state its meaning |
| EventParse.EventInfo | oase-root/backyards/monitoring_adapter/Datadog_monitoring_sub.py:372-417 | what `eventinfo_parse` answers; `EventParse.EventInfoRows` and `EventInfoFails` state its meaning |
| EventParse.Difference | oase-root/backyards/monitoring_adapter/Datadog_monitoring_sub.py:497-509 | the difference list; `EventParse.DifferenceMeaning` and `DifferenceEmpty` state its meaning |
| EventParse.ConvertEach | oase-root/backyards/monitoring_adapter/Datadog_monitoring_sub.py:353-355 | the conversion loop converts every event time in order, or raises at the first that does not convert |
| EventParse.ConvertAllMeaning | oase-root/backyards/monitoring_adapter/Datadog_monitoring_sub.py:353-355 | the conversion succeeds iff every event time converts, and then gives one timestamp per value in order |
| EventParse.CallEachMeaning | oase-root/backyards/monitoring_adapter/Datadog_monitoring_sub.py:353-355 | mapping a converter that may raise succeeds iff every call returns, with each result in its place |
| EventParse.Zip | oase-root/backyards/monitoring_adapter/Datadog_monitoring_sub.py:366-367 | zipping lists of one length gives one pair per instance |
| EventParse.MessageParse | oase-root/backyards/monitoring_adapter/Datadog_monitoring_sub.py:330-369 | `message_parse` answers exactly what `MessageParseSpec` says |
| EventParse.MessageParsePairs | oase-root/backyards/monitoring_adapter/Datadog_monitoring_sub.py:347-369 | on success both extractions succeeded; pairs exist iff both lists are non-empty and of one length, and then pair each instance with its converted time |
| EventParse.MessageParseFails | oase-root/backyards/monitoring_adapter/Datadog_monitoring_sub.py:336-363 | `(False, [])` exactly when the data has a length and the event-time extraction, or (after all times convert) the instance extraction, answers False |
| EventParse.ParseRule | oase-root/backyards/monitoring_adapter/Datadog_monitoring_sub.py:391-393 | one rule condition's extraction is `_parser` on its dotted path |
| EventParse.ParseColumns | oase-root/backyards/monitoring_adapter/Datadog_monitoring_sub.py:389-399 | the per-condition loop gives one column per response key, or stops at the first failing extraction |
| EventParse.ColumnsMeaning | oase-root/backyards/monitoring_adapter/Datadog_monitoring_sub.py:389-399 | the columns exist iff every key's extraction succeeds, and column `j` is key `j`'s values |
| EventParse.ColumnsByMeaning | oase-root/backyards/monitoring_adapter/Datadog_monitoring_sub.py:389-399 | the same, for any extractor |
| EventParse.ColumnsNext | oase-root/backyards/monitoring_adapter/Datadog_monitoring_sub.py:390-399 | one more key raises, answers False, or appends its column |
| EventParse.ColumnsStick | oase-root/backyards/monitoring_adapter/Datadog_monitoring_sub.py:394-396 | after a failing key, later keys change nothing |
| EventParse.CommonLength | oase-root/backyards/monitoring_adapter/Datadog_monitoring_sub.py:401-406 | the length check passes iff all columns have one length, which it reports (0 without columns) |
| EventParse.Transpose | oase-root/backyards/monitoring_adapter/Datadog_monitoring_sub.py:408-414 | row `i` holds the `i`-th value of every column, in key order |
| EventParse.EventInfoParse | oase-root/backyards/monitoring_adapter/Datadog_monitoring_sub.py:372-417 | `eventinfo_parse` answers exactly what `EventInfo` says |
| EventParse.EventInfoRows | oase-root/backyards/monitoring_adapter/Datadog_monitoring_sub.py:372-417 | on success every key extracted one value per row, and row `i` holds value `i` of each key |
| EventParse.EventInfoFails | oase-root/backyards/monitoring_adapter/Datadog_monitoring_sub.py:401-406 | after the extractions succeed, `(False, [])` exactly when some column's length differs from the first; no keys give no rows |
| EventParse.FlaggedMeaning | oase-root/backyards/monitoring_adapter/Datadog_monitoring_sub.py:499-500 | the flagged positions are exactly those whose flag is set, increasing |
| EventParse.FlaggedNone | oase-root/backyards/monitoring_adapter/Datadog_monitoring_sub.py:499-500 | no set flag, no position |
| EventParse.DiffSticks | oase-root/backyards/monitoring_adapter/Datadog_monitoring_sub.py:501-505 | once `confirm_list[index]` raises, the loop raises |
| EventParse.DiffUpToMeaning | oase-root/backyards/monitoring_adapter/Datadog_monitoring_sub.py:497-509 | the loop raises iff a set flag has no pair; otherwise one entry per set flag, in order, from its pair and its row |
| EventParse.DifferenceMeaning | oase-root/backyards/monitoring_adapter/Datadog_monitoring_sub.py:497-509 | the same for the whole difference when flags and rows are equal in number |
| EventParse.DifferenceEmpty | oase-root/backyards/monitoring_adapter/Datadog_monitoring_sub.py:497-509 | unequal counts, or no set flag, give an empty difference |
| EventParse.BuildDifference | oase-root/backyards/monitoring_adapter/Datadog_monitoring_sub.py:482-509 | the loop builds exactly `Difference` |
| Database.Locked | oase-root/backyards/monitoring_adapter/Datadog_monitoring_sub.py:205-211 | the optimistic lock of `execute` on the adapter table, same length; `Database.LockedMeaning` and `LockTakenOnce` state its meaning |
| Database.Swept | oase-root/backyards/monitoring_adapter/Datadog_monitoring.py:189-207 | the sweep of stuck rows, same length; `Database.SweptMeaning`, `SweptKeepsOthers` and `SweptIdempotent` state its meaning |
| Database.AdapterIndex | oase-root/backyards/monitoring_adapter/Datadog_monitoring_sub.py:434 | the lookup by key fails iff no adapter has that key, and otherwise finds one that has it |
| Database.FindAdapter | oase-root/backyards/monitoring_adapter/Datadog_monitoring_sub.py:434-443 | `DatadogAdapter.objects.get(pk=id)` raises `DoesNotExist` iff no adapter has the key, and otherwise gives one from the table |
| Database.AdapterIndexFirst | oase-root/backyards/monitoring_adapter/Datadog_monitoring_sub.py:207 | the lookup finds the first adapter with the key |
| Database.AdapterIndexStable | oase-root/backyards/monitoring_adapter/Datadog_monitoring_sub.py:207-211 | rewriting the found row under the same key keeps it findable at the same place |
| Database.LatestProcessed | oase-root/backyards/monitoring_adapter/Datadog_monitoring_sub.py:437-439 | the latest PROCESSED row's window end: none iff there is no such row, otherwise one of them and no other is later |
| Database.LockedMeaning | oase-root/backyards/monitoring_adapter/Datadog_monitoring_sub.py:205-211 | the compare-and-set changes only the named adapter, sets it busy with the new stamp when its stamp is unchanged, and changes nothing otherwise |
| Database.LockTakenOnce | oase-root/backyards/monitoring_adapter/Datadog_monitoring_sub.py:208 | a second compare-and-set with the old stamp finds the stamp changed and does nothing |
| Database.SweptMeaning | oase-root/backyards/monitoring_adapter/Datadog_monitoring.py:193-207 | every stuck row of this host becomes FORCE_PROCESSED by the sweeping user, every other row is kept, and none stays stuck |
| Database.SweptKeepsOthers | oase-root/backyards/monitoring_adapter/Datadog_monitoring.py:193-196 | rows of another host or status are never touched |
| Database.SweptIdempotent | oase-root/backyards/monitoring_adapter/Datadog_monitoring.py:189-207 | sweeping twice is sweeping once |
| Database.Store.InsertHistory | oase-root/backyards/monitoring_adapter/Datadog_monitoring_sub.py:129-162 | an accepted insert appends the row with the next key; a refused one (the `except`) changes nothing and gives None |
| Database.Store.UpdateHistory | oase-root/backyards/monitoring_adapter/Datadog_monitoring_sub.py:165-185 | an accepted update rewrites status, window end, host, stamp and user of that row only; a refused one raises and changes nothing |
| Database.Store.MarkBusyIfUnchanged | oase-root/backyards/monitoring_adapter/Datadog_monitoring_sub.py:206-211 | the locked read reports whether the adapter exists, and the table becomes `Locked` of the old one |
| Database.Store.ForceTerminate | oase-root/backyards/monitoring_adapter/Datadog_monitoring.py:189-212 | the sweep's transaction commits `Swept` of the history or leaves it as it was |
| Worker.ExecuteResult | oase-root/backyards/monitoring_adapter/Datadog_monitoring_sub.py:188-229 | what `execute` answers; `Worker.ConflictIsServerError` and `WindowConverts` use it |
| Worker.Dispatch | oase-root/backyards/monitoring_adapter/Datadog_monitoring_sub.py:481-532 | the steps after a successful `execute`; `Worker.ProcessedExactly`, `SentOnlyWithDifference` and `EmptyDifferenceIsProcessed` state its outcomes |
| Worker.FormatAndSend | oase-root/backyards/monitoring_adapter/Datadog_monitoring_sub.py:514-532 | formatting and sending a non-empty difference; `Worker.EmptyFormIsProcessed` and `SentOnlyWithDifference` state its outcomes |
| Worker.Cycle | oase-root/backyards/monitoring_adapter/Datadog_monitoring_sub.py:469-537 | the `try` block's step, decided by `ExecuteResult` and `Dispatch`; `Worker.ProcessedExactly` and `ConflictIsServerError` state its outcomes |
| Worker.WindowStart | oase-root/backyards/monitoring_adapter/Datadog_monitoring_sub.py:432-452 | a window exists iff the adapter does; it starts at the adapter's stamp without PROCESSED rows, else at a PROCESSED window end no other PROCESSED row of the adapter is later than |
| Worker.WindowConverts | oase-root/backyards/monitoring_adapter/Datadog_monitoring_sub.py:469-475 | both window ends convert back to their timestamps, so the cycle is decided by the backend's answer alone |
| Worker.ConflictIsServerError | oase-root/backyards/monitoring_adapter/Datadog_monitoring_sub.py:205-215 | a conflict flag makes the cycle end as SERVER_ERROR |
| Worker.EmptyDifferenceIsProcessed | oase-root/backyards/monitoring_adapter/Datadog_monitoring_sub.py:497-512 | unequal flag and row counts, or no set flag, end the cycle without an error and without sending |
| Worker.EmptyFormIsProcessed | oase-root/backyards/monitoring_adapter/Datadog_monitoring_sub.py:523-524 | successful formatting with no form data ends without an error and without sending |
| Worker.SentOnlyWithDifference | oase-root/backyards/monitoring_adapter/Datadog_monitoring_sub.py:482-532 | something is sent only after both parses, the flags, a non-empty difference and a successful non-empty formatting of it; the cycle is then error-free iff the send succeeds |
| Worker.ProcessedExactly | oase-root/backyards/monitoring_adapter/Datadog_monitoring_sub.py:465-549 | after a successful `execute`, PROCESSED exactly when every step succeeds, the difference is empty, or formatting gives no data or a successful send |
| Worker.SubModules.constructor | oase-root/backyards/monitoring_adapter/Datadog_monitoring_sub.py:115-126 | a new worker holds its adapter key and user, and no adapter or history row yet |
| Worker.SubModules.Execute | oase-root/backyards/monitoring_adapter/Datadog_monitoring_sub.py:188-229 | `execute` answers `ExecuteResult` and leaves the history alone; the adapter table changes by the compare-and-set exactly when a conflict is reported |
| Worker.SubModules.RunCycle | oase-root/backyards/monitoring_adapter/Datadog_monitoring_sub.py:469-537 | the `try` block decides `Cycle` and changes the adapters only by the lock |
| Worker.SubModules.Respond | oase-root/backyards/monitoring_adapter/Datadog_monitoring_sub.py:477-512 | a failed `execute` is an error; otherwise the response goes through `Dispatch` |
| Worker.SubModules.Deliver | oase-root/backyards/monitoring_adapter/Datadog_monitoring_sub.py:514-532 | a non-empty difference is formatted and sent as `FormatAndSend` says |
| Worker.SubModules.CloseCycle | oase-root/backyards/monitoring_adapter/Datadog_monitoring_sub.py:539-554 | the opened row gets FINAL status, window end `now`, host, stamp and user when the update is accepted, and stays as it was otherwise |
| Worker.SubModules.OpenCycle | oase-root/backyards/monitoring_adapter/Datadog_monitoring_sub.py:454-554 | a refused insert changes nothing; otherwise exactly one row is appended, closed or left PROCESSING |
| Worker.SubModules.DoWorkflow | oase-root/backyards/monitoring_adapter/Datadog_monitoring_sub.py:420-558 | False with nothing changed without the adapter or the insert; otherwise True with exactly one new row for this adapter, PROCESSED iff the cycle had no error, or left PROCESSING when the closing update is refused; `adapter` holds the adapter read and `monitoringHistory` the new row's key, or None after a refused insert, and both stay unchanged when the adapter is missing |
| Supervisor.Put | oase-root/backyards/monitoring_adapter/Datadog_monitoring.py:123 | `aryPCB[id] = proc`; `Supervisor.PutFinds`, `PutOthers`, `PutKeys` and `PutKeyed` state its meaning |
| Supervisor.Remove | oase-root/backyards/monitoring_adapter/Datadog_monitoring.py:168 | `aryPCB.pop(id)`; `Supervisor.RemoveMeaning` and `RemoveBetween` state its meaning |
| Supervisor.SpawnUpTo | oase-root/backyards/monitoring_adapter/Datadog_monitoring.py:134-154 | the scan of `do_normal`; `Supervisor.SpawnOk`, `SpawnCovers`, `SpawnOrigin` and `SpawnStops` state its meaning |
| Supervisor.Running | oase-root/backyards/monitoring_adapter/Datadog_monitoring.py:157-176 | the handles an observation keeps, never more than before; `Supervisor.RunningMeaning` states exactly which |
| Supervisor.SleepReturns | oase-root/backyards/monitoring_adapter/Datadog_monitoring.py:242 | `sleep(int(run_interval))` returns iff `int()` reads a length from 0 to 9223372036 seconds, the largest whose nanoseconds fit a signed 64-bit count; otherwise `Supervisor.WaitAll` stops with processes left and `Supervise` exits 2 |
| Supervisor.KeyIndex | oase-root/backyards/monitoring_adapter/Datadog_monitoring.py:166 | `aryPCB[id]` finds the one entry under `id`, and nothing iff the key is absent |
| Supervisor.Keys | oase-root/backyards/monitoring_adapter/Datadog_monitoring.py:165 | `list(aryPCB)` lists the keys in table order |
| Supervisor.PutKeys | oase-root/backyards/monitoring_adapter/Datadog_monitoring.py:123 | storing under a new key appends that key; under a present key it keeps the keys |
| Supervisor.PutFinds | oase-root/backyards/monitoring_adapter/Datadog_monitoring.py:123 | after `aryPCB[id] = proc` the key holds `proc` |
| Supervisor.PutOthers | oase-root/backyards/monitoring_adapter/Datadog_monitoring.py:123 | storing under one key leaves every other key's entry where it was |
| Supervisor.PutKeyed | oase-root/backyards/monitoring_adapter/Datadog_monitoring.py:123 | the keys stay distinct, and the only new entry is the stored one |
| Supervisor.PutAppendOther | oase-root/backyards/monitoring_adapter/Datadog_monitoring.py:123 | appending under a new key does not move other keys |
| Supervisor.PutReplaceOther | oase-root/backyards/monitoring_adapter/Datadog_monitoring.py:123 | replacing in place does not move other keys |
| Supervisor.RemoveMeaning | oase-root/backyards/monitoring_adapter/Datadog_monitoring.py:168 | `pop(id)` keeps exactly the entries under other keys |
| Supervisor.RemoveAbsent | oase-root/backyards/monitoring_adapter/Datadog_monitoring.py:168 | removing an absent key changes nothing |
| Supervisor.RemoveAppend | oase-root/backyards/monitoring_adapter/Datadog_monitoring.py:168 | removal works piecewise on a concatenation |
| Supervisor.RemoveBetween | oase-root/backyards/monitoring_adapter/Datadog_monitoring.py:168 | `pop` of a key held once drops just that entry and keeps the order |
| Supervisor.SpawnOk | oase-root/backyards/monitoring_adapter/Datadog_monitoring.py:141-154 | `do_normal` answers True iff every idle adapter's worker starts |
| Supervisor.SpawnKeyed | oase-root/backyards/monitoring_adapter/Datadog_monitoring.py:141-154 | the table stays keyed and keeps every key it had |
| Supervisor.SpawnCovers | oase-root/backyards/monitoring_adapter/Datadog_monitoring.py:141-154 | after True every idle adapter has a process under its key |
| Supervisor.SpawnOrigin | oase-root/backyards/monitoring_adapter/Datadog_monitoring.py:141-154 | every entry was there before or is the started process of a scanned idle adapter |
| Supervisor.SpawnNext | oase-root/backyards/monitoring_adapter/Datadog_monitoring.py:144-152 | one idle adapter either fails the scan or stores its started process |
| Supervisor.SpawnStops | oase-root/backyards/monitoring_adapter/Datadog_monitoring.py:151-152 | after a failed start, later adapters change nothing |
| Supervisor.RunningMeaning | oase-root/backyards/monitoring_adapter/Datadog_monitoring.py:165-168 | an observation keeps exactly the processes that have not exited |
| Supervisor.RunningKeyed | oase-root/backyards/monitoring_adapter/Datadog_monitoring.py:165-168 | an observation keeps the keys distinct |
| Supervisor.RunningAbsent | oase-root/backyards/monitoring_adapter/Datadog_monitoring.py:165-168 | an observation adds no key |
| Supervisor.ObserveFind | oase-root/backyards/monitoring_adapter/Datadog_monitoring.py:165-166 | during the loop, `aryPCB[id]` for the next listed key is the listed handle, right after the survivors |
| Supervisor.ObserveReap | oase-root/backyards/monitoring_adapter/Datadog_monitoring.py:166-168 | reaping a finished listed process extends the observed prefix by one |
| Supervisor.ObserveKeep | oase-root/backyards/monitoring_adapter/Datadog_monitoring.py:166 | keeping a running listed process extends the observed prefix by one |
| Supervisor.ProcessTable.constructor | oase-root/backyards/monitoring_adapter/Datadog_monitoring.py:227 | `aryPCB = {}` starts empty |
| Supervisor.MainModules.constructor | oase-root/backyards/monitoring_adapter/Datadog_monitoring.py:98-108 | the supervisor keeps the update user and the host name |
| Supervisor.MainModules.ExecuteSubprocess | oase-root/backyards/monitoring_adapter/Datadog_monitoring.py:111-131 | True iff the worker starts, and then its handle is stored under the adapter key; otherwise the table is unchanged |
| Supervisor.MainModules.DoNormal | oase-root/backyards/monitoring_adapter/Datadog_monitoring.py:134-154 | answer and table are those of `SpawnUpTo` over all adapters |
| Supervisor.MainModules.ObserveSubprocess | oase-root/backyards/monitoring_adapter/Datadog_monitoring.py:157-176 | afterwards the table holds exactly the processes still running, keys distinct |
| Supervisor.MainModules.SetForceTerminateStatus | oase-root/backyards/monitoring_adapter/Datadog_monitoring.py:179-213 | the history becomes `Swept` for this host and user, or stays as it was when the transaction fails |
| Supervisor.WaitAll | oase-root/backyards/monitoring_adapter/Datadog_monitoring.py:233-242 | the loop ends; it drains the table unless the first sleep raises while processes remain, and then leaves the first observation |
| Supervisor.Supervise | oase-root/backyards/monitoring_adapter/Datadog_monitoring.py:216-254 | a held lock exits 0 untouched; otherwise the lock is released on every path, the exit code is 2 exactly when the user lookup or the sleep raises, and exit 0 means a drained table and a history swept unless the sweep's transaction fails |

## Left out

- Logging, `traceback`, the load-test timers and environment reading: they are I/O and touch no modelled state.
- The worker's `__main__` block, including `int(argv[1])` and the `User` lookup: this is process start-up. The worker object takes its key and user as constructor arguments.
- `DatadogApi`, `ManageTrigger` (including its own database writes), `message_formatting` and `send_request`: their code is not part of this model. They are oracles in `Worker.Backend`.
- `Prometheus_api.py` and `ITA_models.py`: context files, not part of the Datadog core.
- `Popen`, `poll()` and `wait()`: `spawn` gives, for each adapter key, whether the start succeeds and the round in which `poll()` first reports the exit. Exceptions from `poll()` and `wait()`, and the `observe_subprocess` return value they produce, are not modelled.
- Supervisor.WaitAll: time is counted in observation rounds, not seconds, and the sleep itself is not modelled.
- Supervisor.WaitAll: every started worker is assumed to exit, since a handle's exit round is a natural number. A worker that never exits keeps the source's `while(True)` at lines 233-242 of `Datadog_monitoring.py` polling forever while it holds the lock. Every later run then exits 0 at lines 219-223 without doing anything, and the sweep never runs. `Supervisor.WaitAll` and `Supervisor.Supervise` state nothing about that case, because a loop without a bound cannot be stated here.
- Supervisor.Supervise: exceptions from `DatadogAdapter.objects.all()` and from the process table are not modelled; only the user lookup and the sleep can exit 2.
- Supervisor.MainModules.ObserveSubprocess: the step reads the handle from the list of keys taken before the loop, instead of looking `aryPCB[id]` up again. `Supervisor.ObserveFind` proves the two are the same handle.
- The workers' own writes to the tables while the supervisor waits: they happen in other processes, and concurrency is not modelled.
- Database exceptions other than a refused insert, a refused update, and `DoesNotExist` on the adapter reads: the remaining Django failures are left out.
- Database.Store.UpdateHistory: the stored window end is the datetime `now`. The model does not follow Django's parsing of the `strftime` text, which drops microseconds.
- EpochTime.ParseWallClock: this covers `strptime` only for zero-padded fields. Python's `strptime` also accepts one-digit fields and surrounding text forms, which are not modelled.
- Calendar.Pad4: years below 1000 are padded to four digits. Python's `strftime('%Y')` on glibc does not pad them.
- Floats: JSON numbers with a fraction, and `int()` of a float, are not modelled. `timestamp()` of a whole-second datetime is modelled as an integer.
- Values.Lookup: a dict is a sequence of entries, and the model does not require its keys to be distinct, as they are in every dict the JSON decoder builds. On such data `Lookup` answers the first entry with the key, and `Values.Members` lists a repeated key twice.
- Text.IsSpace and Text.IsDigit: these model the ASCII part of `str.isspace()` / `str.isdigit()`. Unicode digits and spaces are left out.
- Microseconds of `datetime.now()`: the clock readings are whole seconds.
