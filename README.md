# SystemGuardian decision core in Dafny

A model of the decision logic of the Windows System Guardian service
(`SystemGuardian.py`). The service watches the System event log and the
service registry. It repairs failing services, drivers and DCOM
registrations, and isolates them when repair does not help or the failure
is severe. The model covers the logic between the platform signals and the
operating-system actions. The Windows calls themselves become parameters
(their outcomes) or entries in an effect log (what was asked for).

Modules, in dependency order:

- `Wrappers`: the `Option` type.
- `Text`: the parts of Python's `str` that the logic uses: `in`,
  `startswith`, `lower` on ASCII letters, `split` on one character, and the
  character classes of the three regular expressions.
- `Events`: event records, `is_relevant_event`, `extract_component` and
  `classify_event`.
  - The three patterns are modelled exactly: leftmost `re.search`, greedy
    `\s+`, lazy `"(.+?)"` that stops at a newline, and greedy `[A-F0-9-]+`
    under case folding.
  - Each is specified declaratively (`MatchShape`) and proved equal to the
    matcher in both directions.
- `Dispatch`: the `service:`/`driver:`/`dcom:` prefix dispatch of
  `attempt_repair` and `process_isolation_queue`, using `split(':')[1]`, and
  the effect log of adapter calls and notifications.
- `RetryLedger`: the `retry_registry` bookkeeping of `handle_warning` as
  pure functions, with lemmas about runs of successive warnings.
- `Cascade`: `get_affected_components` as an imperative worklist search.
  - It is proved to stop, also on cyclic maps.
  - It is proved to return exactly the components reachable along
    `component_dependencies` links.
- `IsolationQueue`: the priority queue as a sequence of
  `(priority, arrival number, request)` entries. It is drained lowest
  priority first and, within a priority, in arrival order.
- `Guardian`: the class `SystemGuardianService`.
  - Its fields are the queues, `retry_registry` and the effect log.
  - It has one method per handler and one per pass of each worker loop.
  - The class invariant: no retry record counts more than three failures,
    and queued requests carry increasing arrival numbers.

Behaviour of the code worth knowing:

- The one-hour retry window is measured from the last failed attempt, not
  from the first attempt in the window. `last_attempt` is overwritten on
  every failure (line 210). `RetryLedger.WindowSlidesWithLastFailure` shows
  that failures at 0 s, 3000 s and 6000 s all count, and that a warning at
  6500 s still escalates.
- A successful repair does not clear the record (lines 206-208):
  `RetryLedger.SuccessLeavesRecord`.
- Enqueueing does not deduplicate requests. There are no recovery points.
  The event queue is unbounded.

## Model

| member | source | states |
|---|---|---|
| Events.IsRelevantEvent | SystemGuardian.py:115-129 | A warning is relevant iff its source or id is in the warning lists, and an error iff it is in the error lists; an event of any other type is never relevant |
| Events.RelevanceMonotone | SystemGuardian.py:121-127 | Adding sources or ids to the configured lists never makes a relevant event irrelevant |
| Events.MatchAt | SystemGuardian.py:147-150 | A rule that matches at a position always captures a non-empty text (`.+?` and `[A-F0-9-]+` need at least one character) |
| Events.MatchAtSound | SystemGuardian.py:147-150 | Every capture has the pattern's shape: the keyword in any ASCII case, at least one whitespace character, the opening delimiter, the capture, then the closing delimiter. A quoted capture holds no newline and no quote after its first character; a CLSID capture is all hex digits and dashes |
| Events.MatchAtComplete | SystemGuardian.py:147-150 | Conversely, whenever that shape is present at a position, the matcher reports exactly that capture there |
| Events.Search | SystemGuardian.py:153 | Whatever the search finds is a non-empty capture; which capture it is, is stated by `Events.SearchSpec` |
| Events.SearchSpec | SystemGuardian.py:153 | `re.search` fails iff the rule matches at no position; otherwise it reports the capture of the leftmost matching position |
| Events.ExtractComponentFirstMatchWins | SystemGuardian.py:144-156 | The service rule decides whenever it matches anywhere. The driver rule decides only when the service rule matches nowhere, and the CLSID rule only when neither does. The id is `label:capture` of the deciding rule's leftmost match. The result is "unknown" iff no rule matches |
| Events.ExtractComponent | SystemGuardian.py:144-156 | The id is "unknown" iff none of the three searches finds anything; which rule decides and what the id is, is stated by `Events.ExtractComponentFirstMatchWins` |
| Events.RuleIdFromSearch | SystemGuardian.py:153-155 | An id built from a successful search is the leftmost match's id and is never "unknown" |
| Events.ExtractedKindMatched | SystemGuardian.py:152-155 | An extracted id with the prefix of a rule's label is only produced when that rule matched |
| Events.ClassifyEvent | SystemGuardian.py:158-167 | The classifier is total: it returns one of the five labels, and an error label (`critical_com`, `critical_driver`, `system_error`) exactly when the event is of error type |
| Events.ClassifyEventLabels | SystemGuardian.py:158-167 | Each label's condition, as an if-and-only-if. `critical_com` iff error type and the message contains `DCOM` or `CLSID` case-sensitively, which wins over a driver mention. `critical_driver` iff error type, no DCOM/CLSID and `driver` in any case. `system_error` is the remaining error case. `service_warning` iff not an error and `service` in any case; otherwise `hardware_warning` |
| Events.ClassifyAgreesWithExtraction | SystemGuardian.py:144-167 | An error whose component is a driver is never a plain `system_error`; a non-error event whose component is a service is always a `service_warning` |
| Events.LowerCaseClsidIsNotCriticalCom | SystemGuardian.py:149-161 | The two case rules differ: the error message `clsid {AB}` yields the component `dcom:AB` yet is classified `system_error` |
| Events.ProcessEvent | SystemGuardian.py:131-142 | The record keeps the event's type and message; its category is one of the five labels and an error category exactly when the event is an error; its component is "unknown" exactly when no extraction rule matches the message |
| Events.RelevantProcessed | SystemGuardian.py:103-106 | The filter of one batch never yields more events than the batch holds; which ones it yields is stated by `Events.RelevantProcessedShape` and `Events.RelevantProcessedAppend` |
| Events.RelevantProcessedShape | SystemGuardian.py:103-106 | The events one poll queues are the relevant ones, processed: never more than the batch, each a warning or an error whose category is an error category exactly when it is an error, and none dropped when all are relevant |
| Events.RelevantProcessedAppend | SystemGuardian.py:103-106 | Filtering a batch one event longer appends exactly that event's processed record when it is relevant, and nothing otherwise |
| Text.SplitSpec | SystemGuardian.py:257 | The pieces of `split(sep)` hold no separator, and joining them back with the separator gives the original string |
| Text.SplitAfterHead | SystemGuardian.py:257 | Splitting `head + sep + tail` with a separator-free head gives the head followed by the pieces of the tail |
| Dispatch.NameAfterPrefix | SystemGuardian.py:257 | For an id with a kind prefix, `split(':')[1]` is the text after the prefix up to the next colon |
| Dispatch.Target | SystemGuardian.py:256-262 | Dispatch selects a kind only when the id starts with that kind's prefix, and selects none exactly when no prefix matches |
| Dispatch.TargetNameIsSecondField | SystemGuardian.py:256-261 | Only the text between the first and second colon reaches an adapter: the name is colon-free and is followed in the id by a colon or by the end |
| Dispatch.TargetOfId | SystemGuardian.py:256-261 | Round trip: building `kind:name` and dispatching it selects that kind with the name cut at its first colon, and the name itself when it has no colon |
| Dispatch.UnknownHasNoTarget | SystemGuardian.py:156 | The shared "unknown" id matches no prefix |
| Dispatch.ExtractedIdDispatch | SystemGuardian.py:144-156 | Every extracted id other than "unknown" reaches an adapter of the deciding rule's kind with the capture up to its first colon; "unknown" reaches none |
| Dispatch.AttemptRepair | SystemGuardian.py:253-265 | `attempt_repair` succeeds only when a prefix matches, and then returns what the selected adapter returns (an adapter that raises counts as False) |
| Dispatch.UnknownNeverRepaired | SystemGuardian.py:262 | `attempt_repair("unknown")` is always False |
| Dispatch.RepairCalls | SystemGuardian.py:256-261 | At most one repair adapter is called, exactly one iff the id has a kind prefix, and that call is the repair adapter of the prefix's kind with the second colon field as its argument |
| Dispatch.IsolationEffects | SystemGuardian.py:457-467 | Processing a request calls the isolate adapter of the matching kind, if any, with the second colon field. It always ends with the "Component isolated" notification, also for an unknown prefix |
| RetryLedger.Refreshed | SystemGuardian.py:192-203 | Afterwards the component has a record. A missing or expired record (more than 3600 s since the last attempt) is replaced by a fresh one with count 0 and last attempt now. Every other record, and a live record of this component, is left as it was |
| RetryLedger.WarningOutcome | SystemGuardian.py:205-219 | The warning escalates iff the refreshed record already counts three failures |
| RetryLedger.LedgerAfterWarning | SystemGuardian.py:192-210 | Only the warned component's record can change, it exists afterwards, and no record ever counts more than three failures |
| RetryLedger.FailedRepairCounted | SystemGuardian.py:209-210 | A failed repair within the budget adds exactly one to the count and sets the last attempt to now |
| RetryLedger.SuccessLeavesRecord | SystemGuardian.py:206-208 | A successful repair leaves the refreshed record as it is |
| RetryLedger.ExhaustedEscalatesUnchanged | SystemGuardian.py:205-219 | With three failures inside the window, the warning escalates whatever a repair would do, and the ledger is not touched |
| RetryLedger.ExpiredRecordForgotten | SystemGuardian.py:198-203 | Once the window has expired, a warning is handled exactly as for a component that was never seen |
| RetryLedger.FailingRunWithinWindow | SystemGuardian.py:186-219 | For successive failing warnings within an hour of the record's last attempt, the count rises to at most three, and warning i escalates iff the earlier count plus i reaches three |
| RetryLedger.AtMostThreeRepairsPerHour | SystemGuardian.py:186-219 | For a new component whose failing warnings all arrive within an hour of the first, exactly the first three attempt a repair and every later one escalates |
| RetryLedger.WindowSlidesWithLastFailure | SystemGuardian.py:199-210 | The window restarts at each failure: failures at 0, 3000 and 6000 s all count, and a warning at 6500 s escalates |
| Cascade.Unvisited | SystemGuardian.py:245-249 | The list comprehension keeps exactly the dependencies not yet affected, and none of its entries is affected |
| Cascade.NoEntryAffectsOnlyItself | SystemGuardian.py:247 | A component with no entry in the map reaches only itself |
| Cascade.GetAffectedComponents | SystemGuardian.py:236-251 | The worklist loop stops also on cyclic maps, and its result contains the component and is exactly the set of components reachable from it along dependency links |
| IsolationQueue.MinIndex | SystemGuardian.py:453 | `get()` hands out an entry that precedes every queued entry: lowest priority, then earliest arrival |
| IsolationQueue.RemoveAt | SystemGuardian.py:453 | Taking an entry out leaves the other entries, as a multiset |
| IsolationQueue.Drain | SystemGuardian.py:449-453 | Repeated `get()` hands out as many entries as were queued; that they are the queued entries, in service order, is stated by `IsolationQueue.DrainIsPermutation` and `IsolationQueue.DrainInServiceOrder` |
| IsolationQueue.DrainIsPermutation | SystemGuardian.py:449-453 | Draining hands out every queued entry exactly once |
| IsolationQueue.DrainInServiceOrder | SystemGuardian.py:38 | Draining hands out entries lowest priority first and, within a priority, in arrival order |
| IsolationQueue.UrgentLeaveFirst | SystemGuardian.py:212-228 | Priorities never decrease along the drain, so every priority-0 request (an error cascade or a registry issue) leaves before any priority-1 warning escalation |
| Guardian.EscalationRequest | SystemGuardian.py:212-219 | The escalation request isolates the warned component |
| Guardian.MissingBinaryRequest | SystemGuardian.py:405-412 | A missing binary asks to isolate `service:` followed by the service name |
| Guardian.MissingDriverRequest | SystemGuardian.py:423-430 | A missing driver asks to reinstall `driver:` followed by the service name |
| Guardian.ReinstallIsHandledAsIsolation | SystemGuardian.py:423-467 | The action field is never read: a reinstall request isolates the driver named by the service up to its first colon, then notifies |
| Guardian.MissingBinaryIsolatesService | SystemGuardian.py:405-458 | A missing-binary request isolates the service named in the issue, up to its first colon, then notifies |
| Guardian.SystemGuardianService.constructor | SystemGuardian.py:32-40 | A new service has empty queues, no retry records, and the configuration it was given |
| Guardian.SystemGuardianService.IngestEvents | SystemGuardian.py:103-106 | One poll appends exactly the relevant events of the batch, processed, to the event queue in the order the poll returns them |
| Guardian.SystemGuardianService.Put | SystemGuardian.py:212-228 | `put` appends one entry with the next arrival number and keeps the queue numbering |
| Guardian.SystemGuardianService.HandleWarning | SystemGuardian.py:186-219 | The registry becomes what the ledger prescribes, and no record goes over budget. Within the budget the repair adapter is called and nothing is queued. Once the budget is spent, no repair is attempted and exactly one priority-1 isolate request is queued |
| Guardian.SystemGuardianService.HandleError | SystemGuardian.py:221-234 | Exactly one priority-0 isolate request is queued per component the error cascades to, each component once. The queued ones are exactly the reachable components. The retry registry is untouched |
| Guardian.SystemGuardianService.ProcessEventsStep | SystemGuardian.py:173-179 | The oldest event is routed: a warning to handle_warning, with its ledger, queue and effect outcome; anything else to handle_error, which queues at least one request, all at priority 0, and changes neither registry nor effects |
| Guardian.SystemGuardianService.HandleMissingBinary | SystemGuardian.py:397-412 | Notify, then queue one priority-0 isolation of the service |
| Guardian.SystemGuardianService.HandleMissingDriver | SystemGuardian.py:414-432 | Notify and quarantine. The priority-0 reinstall request is queued only when quarantine returns normally; otherwise nothing is queued |
| Guardian.SystemGuardianService.ProcessRegistryIssueStep | SystemGuardian.py:386-390 | The oldest issue is dispatched on its type. A missing binary notifies and queues a priority-0 isolation of the service. A missing driver notifies and calls quarantine, and queues a priority-0 reinstall only when quarantine returns normally. An issue of any other type is dropped with no effect |
| Guardian.SystemGuardianService.ProcessIsolationStep | SystemGuardian.py:453-467 | The entry that precedes all others is taken off. Its adapter call (if any) and the notification are recorded |
| Guardian.SystemGuardianService.ProcessIsolationQueue | SystemGuardian.py:449-467 | Processing until the queue is empty hands out the entries in drain order. It records each one's adapter call and notification, in that order |

## Left out

- Reading the event log and formatting messages (lines 95-113, 133) are Windows I/O. A raw event arrives with its message text. The filter loop over one batch is modelled (`IngestEvents`).
- Registry scanning and validation (lines 305-380) are `winreg` calls and file checks. Registry issues arrive as `RegistryIssue` values, and the `guid` field of a driver issue is not kept, because nothing reads it.
- Guardian.SystemGuardianService.HandleWarning: `repair_service` calls `validate_service_registry` (lines 271, 305-316), which can put a `missing_binary` issue on `registry_queue`; the model's repair is a boolean outcome, so `HandleWarning` never touches `registryQueue`, and no member of the model produces registry issues.
- The repair, isolate and quarantine adapters (lines 267-303, 434-447, 474-540) run subprocesses and change the registry and files.
  - A repair's outcome is a boolean parameter. An adapter that raises is the same as False, because `attempt_repair` catches and returns False.
  - Whether quarantine returns normally is a boolean parameter.
  - Isolate adapters catch their own errors, so their calls are only recorded.
- Toast notifications and logging (lines 542-552 and throughout) are recorded as `Notified` effects or left out.
- The threads, the blocking `get(timeout=1)`, the `is_running` loops and the service framework (lines 554-590) are about concurrency and lifecycle.
  - Each loop body is one method pass, and an empty queue ends the pass with nothing handled.
  - Draining the isolation queue is also modelled until it is empty.
- Loading JSON configuration (lines 69-93) is file I/O. The event patterns and the dependency map are constructor parameters, with the built-in defaults as `DefaultEventPatterns`. `driver_map` is never read by the decision logic and is not modelled.
- Time is whole seconds and one hour is 3600 s. The wall clock is not assumed to be monotonic.
- Case folding covers ASCII letters only.
  - Python's `IGNORECASE` also equates a few non-ASCII letters with ASCII ones, such as the long s, the Kelvin sign and the dotted or dotless i. These are not modelled.
  - Full Unicode `lower()` is not modelled either. For the needles `driver` and `service` it gives the same answers.
- Python's `PriorityQueue` compares the request dictionaries when two priorities are equal, and raises `TypeError`. The model instead serves equal priorities in arrival order.
  - This matters already when requests are queued, not only when they are served. `put` stores the new pair first, then sifts it up the heap, and the sift compares dictionaries as soon as it meets a pair of the same priority. The `TypeError` then leaves `handle_error`'s loop (lines 226-234), and `process_events` logs it (lines 183-184).
  - So in the code, a cascade usually queues only its first few components, once a priority-0 request is queued. `Guardian.SystemGuardianService.HandleError` states the evidently intended behaviour, one request per affected component, not what the code does there.
- The order in which `handle_error` walks the affected set follows Python's set iteration order. The model walks it in an unspecified order and exposes that order as a ghost result.
- Guardian.SystemGuardianService.ProcessEventsStep: for an error event it states only that some priority-0 requests are appended, at least one of them; the exact requests are `HandleError`'s contract.
