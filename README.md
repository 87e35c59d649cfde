# mount-ts: a verified model of the state registry and its orchestrator

mount-ts lets a program declare named, long-lived resources ("states") with
`defstate(name, start, stop?)`. Each declaration gets a registration number
(`order`) from a process-wide counter and is stored in a name-keyed
registry. `start()` runs the start procedures in ascending registration order.
`stop()` runs the stop procedures in descending order. The accessor that
`defstate` returns reads the value the start procedure produced.

This project models three parts of the repository:

- `mount.dfy` (module `Mount`) models `src/index.ts`. Records carry a status, so a
  repeated `start()` or `stop()` skips records already at their goal. Each
  visit emits a `start`/`stop` event before checking the status.
- `mount_legacy.dfy` (module `MountLegacy`) models the older `mount.ts`. It
  has no status: every pass runs every procedure again.
- `store.dfy` (module `RequestStore`) models the request-bin store of the
  example service (`example/modules/store.ts`). `recordRequest` appends a
  request to the bin of its path. `reapStore` drops expired requests and
  deletes the bins left empty.
- `common.dfy` (module `Common`) holds what the other modules share: the
  outcome of a user procedure, the two phases, the sort behind
  `orderedStates`, and `Array.prototype.reverse`.

The registry and the store are classes whose methods update fields in place.
A record is a `State` object with a mutable status and value cell. In the
source these are the object's `status` field and the captured `derefValue`
variable. The user's start and stop procedures are not code the model can
see. Each pass therefore takes `outcome: nat -> Outcome` as input: for each
record order, either the value the procedure resolves with or a rejection.
A pass returns, as a ghost trace, the events it emitted and the procedures it
ran.

Each pass is specified by a pure function, `RunPass`, over snapshots (`View`s)
of the records:

- It is defined on the last element, so the loop invariant of the imperative
  pass (`Walk`) extends it one record at a time.
- The methods `Registry.Start` and `Registry.Stop` are proved to leave each
  record exactly as `RunPass` says.
- The lemmas state what `RunPass` means: what runs, in which order, what
  changes, and where a pass stops.

The model follows the code in three places a reader might not expect:

- `stop()` does not carry on past a failing stop procedure. The first
  rejection ends the pass, just as in `start()`.
- The status `"error"` is declared but never assigned. `Mount.PassNeverAssignsError`
  states this.
- A rejected start leaves a record's status and value cell as they were.

## Model

| member | source | states |
|---|---|---|
| Common.SortByKey | src/index.ts:83-87 | sorting with the comparator `a.order - b.order`, when orders are distinct, lists every element of the set, only those, in strictly ascending order |
| Common.ReversedPermutes | src/index.ts:105 | `reverse()` is a permutation: every element keeps its multiplicity |
| Common.ReversedTwice | src/index.ts:105 | reversing twice gives back the original order |
| Common.ReversedElements | src/index.ts:105 | reversing keeps exactly the same elements |
| Mount.Registry.constructor | src/index.ts:17-18 | the module starts with counter 0 and an empty registry |
| Mount.Registry.NextStateSeq | src/index.ts:20-23 | the counter goes up by one and the new value is returned |
| Mount.State.constructor | src/index.ts:50-64 | a new record has the given name, order and stop flag, status stopped and an empty value cell |
| Mount.Registry.Defstate | src/index.ts:41-68 | a new stopped record with order = old counter + 1 is stored under `name` and returned, its `Get()` being the accessor `defstate` returns, reading the unset cell `None`; nothing else in the registry changes; a warning is recorded exactly when the name was already registered; the registry invariant is kept |
| Mount.DefineKeepsInvariant | src/index.ts:62-66 | registering a record under the next order keeps registration numbers distinct, names matching their keys, and orders within the ones handed out |
| Mount.Registry.GetState | src/index.ts:79-81 | reading a registered name gives its record's current value cell; an unknown name fails |
| Mount.OrderedStates | src/index.ts:83-87 | `orderedStates()` lists every registered record, only those, strictly ascending by order |
| Mount.Registry.Records | src/index.ts:83-87 | the registry's records in `orderedStates()` order, each registered record present |
| Mount.ReversedInOrder | src/index.ts:105 | reversing a list in ascending order gives one in strictly descending order |
| Mount.VisitRecord | src/index.ts:94-112 | one loop iteration emits one event for the record; runs the procedure only if the status is not the goal (stop only if a stop function exists, on the stored value); on success sets the goal status (and, when starting, stores the result); on rejection fails and leaves the record unchanged |
| Mount.VisitTrace | src/index.ts:96-98 | a visit emits exactly the record's event and runs at most that record's procedure |
| Mount.VisitOne | src/index.ts:94-112 | the imperative loop body changes the record exactly as `VisitRecord` says, with the same trace and failure |
| Mount.Advance | src/index.ts:94-101 | one iteration extends the pass over the first `i` records to the first `i + 1` and leaves the other records untouched |
| Mount.Walk | src/index.ts:94-112 | the `for … of` loop that exits on the first rejection leaves every record, the trace and the failure point exactly as `RunPass` says |
| Mount.RunInOrder | src/index.ts:94-112 | a pass over a strictly ordered list is `RunPass`; procedures run in that order; a pass that resolves brings every record to the goal |
| Mount.Registry.Start | src/index.ts:89-102 | `start()` changes the records exactly as the ascending start pass does; it resolves iff no start procedure rejects; procedures run in ascending order; on success every registered record is started |
| Mount.Registry.Stop | src/index.ts:104-113 | `stop()` changes the records exactly as the descending stop pass does; it resolves iff no stop procedure rejects; procedures run in descending order; on success every registered record is stopped |
| Mount.PassStopsAtFailure | src/index.ts:94-101 | after the first rejection the pass visits nothing more: no event, no procedure, no change |
| Mount.PassViews | src/index.ts:94-112 | the records before the failing one are as one visit leaves them; the failing one's visit failed; it and all later records are unchanged |
| Mount.PassTrace | src/index.ts:94-112 | the events are the orders of the visited records, and the procedures run are those of the visited records not at their goal, both in pass order |
| Mount.PassSucceeds | src/index.ts:89-113 | a pass that resolves brings every record to the goal, emits one event per record, and runs exactly the procedures of the records not already at the goal |
| Mount.PassAborts | src/index.ts:89-113 | a rejected pass: the failing record's procedure ran and rejected, earlier records reached the goal, it and later records are unchanged, and events stop at it |
| Mount.PassNeverAssignsError | src/index.ts:3-3 | no pass ever gives a record the status `"error"`: each keeps its status or reaches the goal |
| Mount.PassValues | src/index.ts:53-55 | only a completed start of a record not yet started changes its value cell, to the resolved value; stop never changes it |
| Mount.PassAtGoalIsNoop | src/index.ts:97-108 | a pass over records all at the goal runs no procedure and changes nothing, yet emits one event per record |
| Mount.RepeatedPassIsNoop | src/index.ts:97-110 | idempotence: repeating a pass that resolved runs no procedure and changes no record |
| Mount.InvokedOrdersMonotone | src/index.ts:94-105 | a pass over records in strictly monotone order runs their procedures in that order |
| Mount.PassCallsMonotone | src/index.ts:94-107 | events and procedure calls of a pass follow the pass order |
| Mount.PassSummary | src/index.ts:94-112 | records listed in strict order are distinct; procedures run in that order; a pass that resolves reaches the goal everywhere |
| MountLegacy.Registry.constructor | mount.ts:11-12 | the module starts with counter 0 and an empty registry |
| MountLegacy.Registry.NextStateSeq | mount.ts:14-17 | the counter goes up by one and the new value is returned |
| MountLegacy.State.constructor | mount.ts:24-37 | a new record has the given name, order and stop flag, and an empty value cell |
| MountLegacy.Registry.Defstate | mount.ts:19-40 | a new record with order = old counter + 1, above every earlier order, is returned, its `Get()` being the accessor `defstate` returns, reading the unset cell `None`; it silently replaces whatever `name` held; the rest of the registry is unchanged |
| MountLegacy.DefineKeepsInvariant | mount.ts:35-38 | registering under the next order keeps orders distinct and names matching their keys |
| MountLegacy.OrderedStates | mount.ts:42-46 | `orderedStates()` lists every registered record, only those, strictly ascending by order |
| MountLegacy.Registry.Records | mount.ts:42-46 | the registry's records in `orderedStates()` order |
| MountLegacy.ReversedInOrder | mount.ts:60-60 | reversing an ascending list gives a strictly descending one |
| MountLegacy.VisitRecord | mount.ts:27-34 | the start wrapper always runs the start procedure and stores its result; the stop wrapper runs the stop procedure on the stored value only when one was supplied; it fails iff a procedure that ran rejected |
| MountLegacy.VisitOne | mount.ts:53-63 | the imperative loop body changes the record exactly as `VisitRecord` says |
| MountLegacy.Advance | mount.ts:53-56 | one iteration extends the pass over the first `i` records to `i + 1` |
| MountLegacy.Walk | mount.ts:53-63 | the loop leaves every record, the procedures run and the failure point exactly as `RunPass` says |
| MountLegacy.RunInOrder | mount.ts:53-63 | a pass over a strictly ordered list is `RunPass`; if it resolves it ran exactly the pass's procedures (for start, one per record in list order) |
| MountLegacy.Registry.Start | mount.ts:48-57 | `start()` changes the records as the ascending start pass does; it resolves iff no start rejects; if it resolves it ran one start per registered record, in ascending order |
| MountLegacy.Registry.Stop | mount.ts:59-64 | `stop()` changes the records as the descending stop pass does; it resolves iff no supplied stop rejects; if it resolves it ran every supplied stop procedure, in descending order |
| MountLegacy.PassStopsAtFailure | mount.ts:53-63 | after the first rejection the pass runs nothing more and changes nothing more |
| MountLegacy.PassViews | mount.ts:53-63 | records before the failing one are as their visit leaves them; it and later records are unchanged |
| MountLegacy.PassTrace | mount.ts:53-63 | the procedures run are those of the visited records, in pass order |
| MountLegacy.PassSucceeds | mount.ts:48-64 | a resolving pass runs every procedure of the pass; a start pass stores each result; a stop pass changes nothing |
| MountLegacy.PassAborts | mount.ts:48-64 | a rejected pass stops at the first procedure that rejected; the records after it are untouched and none of their procedures ran |
| MountLegacy.InvokedStartsOneEach | mount.ts:53-56 | a start pass runs exactly one start procedure per record, in pass order |
| MountLegacy.InvokedStartsIgnoreValues | mount.ts:53-56 | which start procedures run does not depend on the records' value cells |
| MountLegacy.RepeatedStartRunsAgain | mount.ts:48-57 | no idempotence: after a resolving start, a second start runs every start procedure again, in the same order |
| RequestStore.Unexpired | example/modules/store.ts:58-60 | the filter keeps exactly the requests created after the expiry time and never lengthens the list |
| RequestStore.UnexpiredAppend | example/modules/store.ts:58-60 | the filter keeps relative order: filtering a concatenation filters each part |
| RequestStore.UnexpiredKeepsAll | example/modules/store.ts:58-60 | the filter leaves a list unchanged iff every request in it is unexpired |
| RequestStore.UnexpiredIdempotent | example/modules/store.ts:58-60 | filtering twice is filtering once |
| RequestStore.RecordedAppends | example/modules/store.ts:43-52 | recording adds the path if missing, puts the request last in its bin after the earlier requests, and leaves other paths alone |
| RequestStore.ReapedIsClean | example/modules/store.ts:54-67 | after a reap no new path appears, no bin is empty, and every remaining request is unexpired |
| RequestStore.ReapedKeepsAlive | example/modules/store.ts:54-67 | a reap keeps a path iff it held an unexpired request, with exactly its unexpired requests |
| RequestStore.ReapIdempotent | example/modules/store.ts:54-67 | reaping twice with the same expiry time is reaping once |
| RequestStore.RecordedAliveSurvivesReap | example/modules/store.ts:43-67 | an unexpired request just recorded survives the next reap, last in its bin |
| RequestStore.RequestBin.constructor | example/modules/store.ts:45-49 | a new bin has the given url and timestamp and no requests |
| RequestStore.Store.constructor | example/modules/store.ts:69-71 | the store starts empty |
| RequestStore.Store.RecordRequest | example/modules/store.ts:43-52 | a missing path gets a fresh bin with that url and timestamp `now`; the request is appended to the path's bin; the contents become `Recorded(old contents, request)`; every bin still sits under its own url |
| RequestStore.Store.ReapStore | example/modules/store.ts:54-67 | `ok` iff the expiry time `now - timeToLive` is a valid `Date`; if not, the log line's `toISOString()` throws a `RangeError` and the store is unchanged; otherwise the contents become `Reaped(old contents)`; the remaining bins are the original objects under their original paths |
| RequestStore.Store.ReapBin | example/modules/store.ts:58-65 | one iteration filters the path's bin in place and deletes its key iff no request is left; no other bin changes |
| RequestStore.ReapingStep | example/modules/store.ts:57-66 | handling one pending path keeps the loop state of `reapStore` |
| RequestStore.ReapingDone | example/modules/store.ts:57-66 | once no path is pending, the store holds exactly the reaped contents |

## Left out

- The event emitter (src/index.ts:115-146) and `enableDebugLogs` (src/index.ts:152-155) are not modelled as objects. Each emitted event is an entry of the ghost trace a pass returns, and listeners are not modelled.
- Console output, `console.warn` on replacement and the `MOUNT_DEBUG` logging are left out. The replacement warning is a ghost list of names in `Mount.Registry`.
- Asynchrony is left out. Each `await` is modelled as completing before the next statement, with its outcome given by the `outcome` parameter.
- A user procedure that reads accessors, registers states, or starts or stops passes while a pass runs is not modelled. The procedures are opaque, and their only effect is their outcome.
- Resource values of any type are modelled as an integer handle (`Value = int`). The value cell is `None` until a start resolves.
- The value that a stop procedure returns is ignored, as the source's wrapper ignores it.
- `Mount.Registry.GetState`: the source's `TypeError` on an unknown name is modelled as `None`. The `undefined` that a record not yet started returns is modelled as `Some(None)`.
- JavaScript object quirks are left out. These are inherited prototype keys, `hasOwnProperty` overrides and the key-order rules of `Object.entries`. The registry is a map, and `orderedStates` sorts by registration number, which is what fixes the order.
- `RequestStore.Store.ReapStore` does not fix the order in which it visits paths (`Object.entries` order). The result does not depend on that order.
- `Date` values are integer timestamps, and the clock reading is the parameter `now`. A non-numeric `timeToLive` (which makes the date `NaN`) is left out.
- Request headers are a map from name to one string value. Repeated headers (`string[]`) and missing values are left out.
- `requestAsData` (example/modules/store.ts:28-41) is left out, because it parses a live HTTP request. The `store.reaper` state that runs `reapStore` on a 60-second timer (example/modules/store.ts:73-77) is left out too.
- The rest of the example service (`example/db.ts`, `example/modules/http.ts`, `config.ts`, `app.ts`, `index.ts`) and `scripts/run.ts` are not part of this model.
