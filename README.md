# DataCollector, modelled in Dafny

This project models the in-memory bookkeeping of the `DataCollector` class of the
dataCollect service (`main.py`). The service polls an HTTP source once a second for
each data group that is collecting, stores every successful response as a row of the
SQLite table `collected_data`, and serves those rows back with a per-group round-robin
read cursor. The model has five parts:

- **Record store** (`record_store.dfy`, module `RecordStore`). The table is a
  `seq<Record>` of `(id, groupId, payload)` in id order. Ids are assigned on insert:
  one above the largest id, or 1 for an empty table. The model has the insert, the
  per-group query, and the sorted list of groups present.
- **Fetch outcome** (`fetch.dfy`, module `Fetch`). One collection attempt, with the
  outcome of the HTTP GET and of the insert given as an input. Only status 200 with a
  decodable body and a working insert stores a row.
- **Read cursor** (`cursor.dfy`, module `Cursor`). `current_indexes` as a map from
  group to stored index, one read as a pure step, and the round-robin lemmas about
  runs of reads.
- **Supervisor** (`supervisor.dfy`, module `Supervisor`). `collecting_groups` as a
  map from group to an opaque task handle, with start and stop. It also covers the
  shutdown loop that stops every group of a snapshot of the keys, and the 1..9
  status summary.
- **The collector object** (`collector.dfy`, module `Collector`). Class
  `DataCollector` holds the store, the cursor map, the collecting map, the key order
  of that map, the set of cancelled handles and a handle counter. Its methods change
  these fields as the Python methods do, and each is proved against the pure
  functions above. `Valid()` is the object invariant every method keeps:
  - the table is well formed;
  - every cursor entry lies between 1 and its group's row count;
  - handles are distinct and not cancelled while in use;
  - the key order lists exactly the collecting groups.

Two behaviours of `main.py` that are easy to misread:

- A failing insert does not end the collection loop. `save_to_database` runs inside
  `collect_data`'s `try` (`main.py:46-58`), so its exception is caught there: no row
  is stored and the attempt returns `None`. The model has this as the `StorageFault`
  outcome of `Fetch.FetchOutcome`.
- A stored cursor index never exceeds the group's row count. Rows are never deleted
  (`main.py:60-69` only inserts), and a read stores at most the count
  (`main.py:105-109`). So every stored index stays between 1 and the count.
  `Cursor.CursorInv` states this invariant, and the read and insert lemmas prove it is kept.

Python dict key order is modelled explicitly (`groupOrder`), because the shutdown
loop iterates over `list(collecting_groups.keys())`.

## Model

| member | source | states |
|---|---|---|
| RecordStore.NextId | main.py:30 | on a well-formed table the new id is at least 1 and above every existing id |
| RecordStore.Append | main.py:60-69 | the insert adds exactly one row at the end, with the given group and payload. Earlier rows are unchanged, the new id is above every older id, and the table stays well formed |
| RecordStore.RecordsOf | main.py:75-76 | the per-group query returns no more rows than the table, and every row it returns belongs to the group |
| RecordStore.RecordsOfMembers | main.py:76 | a row is in the group's result exactly when it is in the table and has that group id |
| RecordStore.RecordsOfAscending | main.py:76 | the group's result keeps id order (`ORDER BY id`) |
| RecordStore.RecordsOfAppend | main.py:60-69 | an insert extends its own group's result by exactly the new row and leaves every other group's result unchanged |
| RecordStore.CountGrowsOnAppend | main.py:60-69 | no group's row count ever shrinks on insert |
| RecordStore.AvailableGroups | main.py:147-150 | the distinct groups are strictly ascending, and a group is listed exactly when some row carries it |
| RecordStore.AvailableIffHasRecords | main.py:143-150 | a group is listed as available exactly when its per-group query is non-empty |
| RecordStore.AppendAllFromEmpty | main.py:30 | from an empty table, N inserts of any groups get ids 1..N in order, each row keeping its group and payload |
| RecordStore.AppendAllWellFormed | main.py:60-69 | any run of inserts keeps the table well formed |
| Fetch.Accepted | main.py:47-58 | an attempt yields a payload exactly when the response has status 200 and a decodable body; a transport fault or another status yields nothing |
| Fetch.CollectStep | main.py:43-58 | a failed attempt (another status, an undecodable body, a failing insert, a transport fault) leaves the table unchanged; a successful one inserts exactly its payload for the group |
| Fetch.CollectAll | main.py:137-141 | a run of attempts keeps every row already in the table, adds at most one row per attempt, and keeps the table well formed |
| Fetch.CollectAllAppendsSuccesses | main.py:43-58 | a run of attempts adds to the group's rows exactly the payloads of the successful attempts, in attempt order |
| Fetch.CollectAllLeavesOtherGroups | main.py:50 | collecting for one group adds nothing to any other group |
| Fetch.FailuresStoreNothing | main.py:53-58 | a run of failed attempts leaves the table unchanged |
| Cursor.StartIndex | main.py:99-106 | the index a read uses is the stored one (0 if absent), replaced by 0 once it is at or past the row count; it is always below the count |
| Cursor.ReadStep | main.py:92-110 | with no rows a read returns nothing and leaves the cursor unchanged. Otherwise it returns the row at the start index and stores that index plus one. Every other group's entry is unchanged |
| Cursor.ReadManyRotates | main.py:99-109 | the i-th of k ≤ n consecutive reads returns the row at (s + i) mod n, where s is the start index; the next read starts at (s + k) mod n |
| Cursor.ReadManyLeavesOthers | main.py:109 | reads of one group never change another group's cursor entry |
| Cursor.RoundRobinFromStart | main.py:102-109 | from no cursor entry, n reads of a group with n rows return its rows one by one in id order, and read n+1 returns the first row again |
| Cursor.RoundRobinEachOnce | main.py:102-109 | from any cursor, n consecutive reads return every row of the group, and no row twice |
| Cursor.ReadPreservesCursorInv | main.py:105-109 | a read keeps every cursor entry between 1 and its group's row count |
| Cursor.AppendPreservesCursorInv | main.py:60-69 | an insert keeps every cursor entry between 1 and its group's row count |
| Supervisor.Start | main.py:114-118 | start reports true exactly when the group was not collecting. Afterwards the group collects, with the new task only if it was absent, and every other entry is unchanged |
| Supervisor.Stop | main.py:122-128 | stop reports true exactly when the group was collecting. Afterwards it is absent, its task is the one to cancel, and every other entry is unchanged |
| Supervisor.StartTwice | main.py:112-118 | a second start of the same group reports false and changes nothing |
| Supervisor.StopIdle | main.py:128 | stopping a group that is not collecting reports false, changes nothing and cancels nothing |
| Supervisor.StopUndoesStart | main.py:112-128 | a stop right after a start restores the map and cancels exactly the new task |
| Supervisor.Without | main.py:126 | deleting a key from the key order keeps every other key and introduces no repeats |
| Supervisor.OrderAfterStart | main.py:116 | inserting a new key appends it to the dict's key order |
| Supervisor.OrderAfterStop | main.py:126 | deleting a key drops it from the dict's key order |
| Supervisor.StopEach | main.py:162-163 | the shutdown loop gives one result per group stopped, and never adds or changes a map entry |
| Supervisor.StopEachRemoves | main.py:162-163 | stopping the groups of a list removes exactly those groups from the map |
| Supervisor.StopEachCancels | main.py:162-163 | stopping the groups of a list cancels exactly the tasks those groups had |
| Supervisor.StopEachReportsStopped | main.py:162-163 | stopping distinct groups that all collect reports true for each |
| Supervisor.StopAllEmpties | main.py:162-163 | stopping every key of a snapshot of the map, each once, leaves no group collecting and cancels every running task |
| Supervisor.StatusSnapshot | main.py:135 | the summary's keys are exactly 1..9, and each value says whether that group collects |
| Supervisor.SnapshotIgnoresOutsideRange | main.py:135 | starting or stopping a group outside 1..9 does not change the summary |
| Collector.DataCollector.constructor | main.py:18-22 | a new collector has no cursor entry and no collecting group, over an existing well-formed table |
| Collector.DataCollector.SaveToDatabase | main.py:60-69 | the table becomes the old table with one row appended, and the object invariant holds |
| Collector.DataCollector.CollectData | main.py:43-58 | the method returns the accepted payload and the table is the one-attempt step of the old table |
| Collector.SelectRows | main.py:75-90 | the query loop returns the whole table, or exactly the group's rows, in table order; on a table with ascending ids the result is in id order |
| Collector.DataCollector.GetAllData | main.py:71-90 | returns the whole table with no group, or the group's rows |
| Collector.DataCollector.GetCurrentData | main.py:92-110 | the returned row and the new cursor map are one read step of the old cursor over the group's rows. The table and the collecting map are unchanged, and the invariant holds |
| Collector.DataCollector.StartCollecting | main.py:112-118 | the result and the new map are the start step with a fresh handle. The key order gains the group and the counter advances, both only when it started |
| Collector.DataCollector.StopCollecting | main.py:120-128 | the result and the new map are the stop step. The removed task joins the cancelled set, and the key order drops the group |
| Collector.DataCollector.GetCollectingStatus | main.py:130-135 | a group's status is exactly its membership, and the 1..9 summary agrees with it |
| Collector.DataCollector.GetCollectingStatusAll | main.py:135 | the summary's keys are exactly 1..9, and each value says whether that group collects |
| Collector.DataCollector.GetAvailableGroups | main.py:143-150 | the available groups are strictly ascending, and a group is listed exactly when its rows are non-empty |
| Collector.DataCollector.StopAll | main.py:162-163 | the shutdown loop leaves no group collecting and an empty key order, and cancels exactly the tasks that were running |

## Left out

- SQLite itself: connections, schema creation and the index (`main.py:24-41`); the table is an in-memory sequence.
- `json.dumps`/`json.loads` (`main.py:66`, `main.py:88`): the payload is the stored text, and decoding is whether the response body is `Some`.
- Collection of a JSON `null` body: Python stores `"null"` yet returns `None`, which the caller cannot tell from a failure. The model returns the stored text.
- Timestamps (`CURRENT_TIMESTAMP`, `main.py:32`): assigned by the database clock.
- The HTTP GET with its 5-second timeout (`main.py:45-47`): its outcome is a parameter of `Fetch.Accepted`.
- `collect_task_for_group` and `asyncio.sleep` (`main.py:137-141`): the periodic loop is modelled only as `Fetch.CollectAll` over a list of outcomes.
- `asyncio.create_task` (`main.py:115`): a task is an opaque handle drawn from a counter.
- Collector.DataCollector.StopCollecting: records the cancel of the removed task whether or not that task has already finished, because `task.done()` (`main.py:124`) depends on the scheduler.
- FastAPI routes (`main.py:174-335`), including `manual_collect`'s truthiness test on the payload: response shaping.
- The console prints in `collect_data` (`main.py:51`, `main.py:54`, `main.py:57`) and in `lifespan`, the global instance and the uvicorn start-up (`main.py:153-172`, `main.py:337-367`): console output and process lifecycle.
- Group ids and row ids are unbounded integers. SQLite's `INTEGER` is 64 bits wide, so binding a group id outside the signed 64-bit range raises `OverflowError`. In `collect_data` (`main.py:64-67`, caught at `main.py:56`) that makes every attempt for such a group store nothing and return `None` while the group still shows as collecting; the caller can choose the `StorageFault` outcome for it, but the model does not force that choice. `get_all_data` (`main.py:76`) would raise for such a group instead of returning its empty list; the model returns the empty list.
- Rows deleted by another program: `AUTOINCREMENT` would then pick an id above the deleted maximum, while `RecordStore.NextId` uses the last row's id plus one. The two agree when no row is deleted, which is the only case this code produces.
- Reads interleaved with inserts: the round-robin lemmas fix the group's rows across their reads. The cursor invariant covers interleavings.
