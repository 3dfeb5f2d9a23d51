/**
 * The guardian service object (SystemGuardian.py:28-467) with its three
 * queues, its retry registry and the record of what it has asked the
 * operating system to do. Each method is one pass of the body of one of the
 * service's worker loops; the threads that run those loops, the blocking
 * `get(timeout=1)` calls and the Windows adapters are outside the model. An
 * adapter's outcome arrives as a parameter, and its call is appended to
 * `effects` instead of being performed.
 */
module Guardian {
  import opened Wrappers
  import opened Text
  import opened Events
  import opened Dispatch
  import opened RetryLedger
  import opened Cascade
  import opened IsolationQueue

  /** An entry of `registry_queue`: its `type`, `service` and `path` keys. */
  datatype RegistryIssue = RegistryIssue(kind: string, service: string, path: string)

  const MISSING_BINARY := "missing_binary"
  const DRIVER_MISSING := "driver_missing"

  /** The request handle_warning enqueues once the retry budget is spent. */
  function EscalationRequest(event: ProcessedEvent): (r: IsolationRequest)
    ensures r.component == event.component && r.action == Isolate
  {
    IsolationRequest(event.component, "Max retries exceeded for warnings: " + event.message, Isolate)
  }

  /** The reason handle_error gives every request of one cascade. */
  function CascadeReason(event: ProcessedEvent): string {
    "Cascading error from " + event.component + ": " + event.message
  }

  /** The request handle_missing_binary enqueues: isolate the service. */
  function MissingBinaryRequest(issue: RegistryIssue): (r: IsolationRequest)
    ensures r.action == Isolate && r.component == Prefix(Service) + issue.service
  {
    IsolationRequest("service:" + issue.service, "Missing binary: " + issue.path, Isolate)
  }

  /** The request handle_missing_driver enqueues after quarantine: reinstall the driver. */
  function MissingDriverRequest(issue: RegistryIssue): (r: IsolationRequest)
    ensures r.action == Reinstall && r.component == Prefix(Driver) + issue.service
  {
    IsolationRequest("driver:" + issue.service, "Missing driver: " + issue.path, Reinstall)
  }

  /**
   * A reinstall request is processed like any other: it isolates the driver
   * named by the service, up to its first colon, and notifies; the action is
   * never read.
   */
  lemma ReinstallIsHandledAsIsolation(issue: RegistryIssue)
    ensures MissingDriverRequest(issue).action == Reinstall
    ensures IsolationEffects(MissingDriverRequest(issue).component)
            == [IsolateCalled(Driver, Split(issue.service, ':')[0]),
                Notified(ISOLATION_TITLE, "Component isolated: " + (Prefix(Driver) + issue.service))]
  {
    TargetOfId(Driver, issue.service);
    IsolationEffectsOfTarget(Prefix(Driver) + issue.service, Driver, Split(issue.service, ':')[0]);
  }

  /** A missing binary isolates the service named in the issue, up to its first colon. */
  lemma MissingBinaryIsolatesService(issue: RegistryIssue)
    ensures IsolationEffects(MissingBinaryRequest(issue).component)
            == [IsolateCalled(Service, Split(issue.service, ':')[0]),
                Notified(ISOLATION_TITLE, "Component isolated: " + (Prefix(Service) + issue.service))]
  {
    TargetOfId(Service, issue.service);
    IsolationEffectsOfTarget(Prefix(Service) + issue.service, Service, Split(issue.service, ':')[0]);
  }

  /** The adapter calls and notifications of handing out `handled`, in order. */
  function IsolationLog(handled: seq<Entry>): seq<Effect> {
    if |handled| == 0 then []
    else IsolationLog(handled[..|handled| - 1]) + IsolationEffects(handled[|handled| - 1].request.component)
  }

  /** Handing out one more entry appends its adapter call and notification to the log. */
  lemma IsolationLogAppend(base: seq<Effect>, handled: seq<Entry>, e: Entry, effs: seq<Effect>)
    requires effs == base + IsolationLog(handled)
    ensures effs + IsolationEffects(e.request.component) == base + IsolationLog(handled + [e])
  {
    assert (handled + [e])[..|handled|] == handled;
  }

  /** No component occurs twice. */
  ghost predicate NoDuplicates(s: seq<string>) {
    forall i, j :: 0 <= i < j < |s| ==> s[i] != s[j]
  }

  class SystemGuardianService {
    const eventPatterns: EventPatterns
    const componentDependencies: Dependencies
    var eventQueue: seq<ProcessedEvent>
    var registryQueue: seq<RegistryIssue>
    var isolationQueue: seq<Entry>
    /** The arrival number the next isolation request gets. */
    var nextSeq: nat
    var retryRegistry: Ledger
    var effects: seq<Effect>

    /** No record is over budget, and queued requests are numbered in arrival order. */
    ghost predicate Valid()
      reads this
    {
      WithinBudget(retryRegistry) && WellNumbered(isolationQueue, nextSeq)
    }

    /** A started service: empty queues, no records, configuration as loaded. */
    constructor (patterns: EventPatterns, deps: Dependencies)
      ensures Valid()
      ensures eventPatterns == patterns && componentDependencies == deps
      ensures eventQueue == [] && registryQueue == [] && isolationQueue == []
      ensures retryRegistry == map[] && effects == []
    {
      eventPatterns := patterns;
      componentDependencies := deps;
      eventQueue := [];
      registryQueue := [];
      isolationQueue := [];
      nextSeq := 0;
      retryRegistry := map[];
      effects := [];
    }

    /** The filter loop of one poll of monitor_event_logs: relevant events are processed and queued in the order the poll returns them. */
    method IngestEvents(batch: seq<RawEvent>)
      modifies this`eventQueue
      ensures eventQueue == old(eventQueue) + RelevantProcessed(eventPatterns, batch)
    {
      var i := 0;
      while i < |batch|
        invariant 0 <= i <= |batch|
        invariant eventQueue == old(eventQueue) + RelevantProcessed(eventPatterns, batch[..i])
      {
        RelevantProcessedStep(eventPatterns, batch, i);
        if IsRelevantEvent(eventPatterns, batch[i]) {
          eventQueue := eventQueue + [ProcessEvent(batch[i])];
        }
        i := i + 1;
      }
      assert batch[..i] == batch;
    }

    /** `isolation_queue.put((priority, request))`. */
    method Put(priority: int, request: IsolationRequest)
      requires Valid()
      modifies this`isolationQueue, this`nextSeq
      ensures Valid()
      ensures isolationQueue == old(isolationQueue) + [Entry(priority, old(nextSeq), request)]
      ensures nextSeq == old(nextSeq) + 1
    {
      AppendKeepsNumbering(isolationQueue, nextSeq, priority, request);
      isolationQueue := isolationQueue + [Entry(priority, nextSeq, request)];
      nextSeq := nextSeq + 1;
    }

    /**
     * handle_warning at time `now`, where `adapterOk` is what the repair
     * adapter would return. The registry becomes the one the retry ledger
     * prescribes; while the budget lasts a repair is attempted, and once it
     * is spent exactly one priority-1 isolate request is enqueued instead.
     */
    method HandleWarning(event: ProcessedEvent, now: int, adapterOk: bool)
      requires Valid()
      modifies this`retryRegistry, this`isolationQueue, this`nextSeq, this`effects
      ensures Valid()
      ensures retryRegistry
              == LedgerAfterWarning(old(retryRegistry), event.component, now, AttemptRepair(event.component, adapterOk))
      ensures WarningOutcome(old(retryRegistry), event.component, now, AttemptRepair(event.component, adapterOk)) == Escalated
              ==> && isolationQueue == old(isolationQueue) + [Entry(1, old(nextSeq), EscalationRequest(event))]
                  && effects == old(effects)
      ensures WarningOutcome(old(retryRegistry), event.component, now, AttemptRepair(event.component, adapterOk)) != Escalated
              ==> && isolationQueue == old(isolationQueue) && nextSeq == old(nextSeq)
                  && effects == old(effects) + RepairCalls(event.component)
    {
      var component := event.component;
      if component !in retryRegistry {
        retryRegistry := retryRegistry[component := RetryRecord(0, now)];
      } else if now - retryRegistry[component].lastAttempt > RETRY_WINDOW {
        retryRegistry := retryRegistry[component := RetryRecord(0, now)];
      }
      if retryRegistry[component].count < MAX_RETRIES {
        effects := effects + RepairCalls(component);
        if AttemptRepair(component, adapterOk) {
          return;
        }
        var rec := retryRegistry[component];
        retryRegistry := retryRegistry[component := rec.(count := rec.count + 1)];
        retryRegistry := retryRegistry[component := retryRegistry[component].(lastAttempt := now)];
      } else {
        Put(1, EscalationRequest(event));
      }
    }

    /**
     * handle_error: one priority-0 isolate request per component the error
     * cascades to, each exactly once, in the order (`order`) the affected set
     * happens to be walked; the retry registry is not touched.
     */
    method HandleError(event: ProcessedEvent) returns (ghost order: seq<string>)
      requires Valid()
      modifies this`isolationQueue, this`nextSeq
      ensures Valid()
      ensures NoDuplicates(order)
      ensures forall c :: c in order <==> Reaches(componentDependencies, event.component, c)
      ensures |isolationQueue| == |old(isolationQueue)| + |order|
      ensures isolationQueue[..|old(isolationQueue)|] == old(isolationQueue)
      ensures forall i :: |old(isolationQueue)| <= i < |isolationQueue| ==>
                isolationQueue[i] == Entry(0, old(nextSeq) + (i - |old(isolationQueue)|),
                                           IsolationRequest(order[i - |old(isolationQueue)|], CascadeReason(event), Isolate))
      ensures nextSeq == old(nextSeq) + |order|
    {
      var affected := GetAffectedComponents(componentDependencies, event.component);
      var remaining := affected;
      order := [];
      while remaining != {}
        invariant Valid()
        invariant remaining <= affected
        invariant forall c :: c in order <==> c in affected && c !in remaining
        invariant NoDuplicates(order)
        invariant |isolationQueue| == |old(isolationQueue)| + |order|
        invariant isolationQueue[..|old(isolationQueue)|] == old(isolationQueue)
        invariant forall i :: |old(isolationQueue)| <= i < |isolationQueue| ==>
                    isolationQueue[i] == Entry(0, old(nextSeq) + (i - |old(isolationQueue)|),
                                               IsolationRequest(order[i - |old(isolationQueue)|], CascadeReason(event), Isolate))
        invariant nextSeq == old(nextSeq) + |order|
        decreases |remaining|
      {
        var comp :| comp in remaining;
        Put(0, IsolationRequest(comp, CascadeReason(event), Isolate));
        order := order + [comp];
        remaining := remaining - {comp};
      }
    }

    /**
     * One pass of process_events: the oldest queued event, if any, goes to
     * handle_warning when it is a warning and to handle_error otherwise.
     */
    method ProcessEventsStep(now: int, adapterOk: bool) returns (handled: Option<ProcessedEvent>)
      requires Valid()
      modifies this`eventQueue, this`retryRegistry, this`isolationQueue, this`nextSeq, this`effects
      ensures Valid()
      ensures old(eventQueue) == [] ==> handled == None && unchanged(this)
      ensures old(eventQueue) != [] ==> handled == Some(old(eventQueue)[0]) && eventQueue == old(eventQueue)[1..]
      ensures handled.Some? && handled.value.eventType == EVENTLOG_WARNING_TYPE
              ==> var c := handled.value.component;
                  var repaired := AttemptRepair(c, adapterOk);
                  && retryRegistry == LedgerAfterWarning(old(retryRegistry), c, now, repaired)
                  && (WarningOutcome(old(retryRegistry), c, now, repaired) == Escalated
                      ==> isolationQueue == old(isolationQueue) + [Entry(1, old(nextSeq), EscalationRequest(handled.value))]
                          && effects == old(effects))
                  && (WarningOutcome(old(retryRegistry), c, now, repaired) != Escalated
                      ==> isolationQueue == old(isolationQueue) && effects == old(effects) + RepairCalls(c))
      ensures handled.Some? && handled.value.eventType != EVENTLOG_WARNING_TYPE
              ==> && retryRegistry == old(retryRegistry) && effects == old(effects)
                  && |isolationQueue| > |old(isolationQueue)|
                  && isolationQueue[..|old(isolationQueue)|] == old(isolationQueue)
                  && forall i :: |old(isolationQueue)| <= i < |isolationQueue| ==> isolationQueue[i].priority == 0
    {
      if eventQueue == [] {
        return None;
      }
      var event := eventQueue[0];
      eventQueue := eventQueue[1..];
      handled := Some(event);
      if event.eventType == EVENTLOG_WARNING_TYPE {
        HandleWarning(event, now, adapterOk);
      } else {
        ghost var order := HandleError(event);
        ReachesSelf(componentDependencies, event.component);
        assert event.component in order;
      }
    }

    /** handle_missing_binary: notify, then enqueue a priority-0 isolation of the service. */
    method HandleMissingBinary(issue: RegistryIssue)
      requires Valid()
      modifies this`isolationQueue, this`nextSeq, this`effects
      ensures Valid()
      ensures effects == old(effects) + [Notified("Critical System Issue", "Service binary missing for " + issue.service)]
      ensures isolationQueue == old(isolationQueue) + [Entry(0, old(nextSeq), MissingBinaryRequest(issue))]
    {
      effects := effects + [Notified("Critical System Issue", "Service binary missing for " + issue.service)];
      Put(0, MissingBinaryRequest(issue));
    }

    /**
     * handle_missing_driver: notify and quarantine, where `quarantineOk` says
     * whether quarantine_driver returned normally; only then is a priority-0
     * reinstall request enqueued.
     */
    method HandleMissingDriver(issue: RegistryIssue, quarantineOk: bool)
      requires Valid()
      modifies this`isolationQueue, this`nextSeq, this`effects
      ensures Valid()
      ensures effects == old(effects) + [Notified("Driver Corruption Detected", "Missing driver file: " + issue.path),
                                         QuarantineCalled(issue.service)]
      ensures quarantineOk ==> isolationQueue == old(isolationQueue) + [Entry(0, old(nextSeq), MissingDriverRequest(issue))]
      ensures !quarantineOk ==> isolationQueue == old(isolationQueue) && nextSeq == old(nextSeq)
    {
      effects := effects + [Notified("Driver Corruption Detected", "Missing driver file: " + issue.path)];
      effects := effects + [QuarantineCalled(issue.service)];
      if quarantineOk {
        Put(0, MissingDriverRequest(issue));
      }
    }

    /**
     * One pass of process_registry_issues: the oldest issue, if any, is
     * dispatched on its type; an issue of any other type is dropped.
     */
    method ProcessRegistryIssueStep(quarantineOk: bool) returns (handled: Option<RegistryIssue>)
      requires Valid()
      modifies this`registryQueue, this`isolationQueue, this`nextSeq, this`effects
      ensures Valid()
      ensures old(registryQueue) == [] ==> handled == None && unchanged(this)
      ensures old(registryQueue) != [] ==> handled == Some(old(registryQueue)[0]) && registryQueue == old(registryQueue)[1..]
      ensures handled.Some? && handled.value.kind == MISSING_BINARY
              ==> && effects == old(effects) + [Notified("Critical System Issue", "Service binary missing for " + handled.value.service)]
                  && isolationQueue == old(isolationQueue) + [Entry(0, old(nextSeq), MissingBinaryRequest(handled.value))]
      ensures handled.Some? && handled.value.kind == DRIVER_MISSING
              ==> && effects == old(effects) + [Notified("Driver Corruption Detected", "Missing driver file: " + handled.value.path),
                                                QuarantineCalled(handled.value.service)]
                  && isolationQueue == old(isolationQueue) + (if quarantineOk then [Entry(0, old(nextSeq), MissingDriverRequest(handled.value))] else [])
      ensures handled.Some? && handled.value.kind != MISSING_BINARY && handled.value.kind != DRIVER_MISSING
              ==> isolationQueue == old(isolationQueue) && nextSeq == old(nextSeq) && effects == old(effects)
    {
      if registryQueue == [] {
        return None;
      }
      var issue := registryQueue[0];
      registryQueue := registryQueue[1..];
      handled := Some(issue);
      if issue.kind == MISSING_BINARY {
        HandleMissingBinary(issue);
      } else if issue.kind == DRIVER_MISSING {
        HandleMissingDriver(issue, quarantineOk);
      }
    }

    /**
     * One pass of process_isolation_queue: the entry that precedes all
     * others, if any, is taken off and its component isolated and notified.
     */
    method ProcessIsolationStep() returns (taken: Option<Entry>)
      requires Valid()
      modifies this`isolationQueue, this`effects
      ensures Valid()
      ensures old(isolationQueue) == [] ==> taken == None && unchanged(this)
      ensures old(isolationQueue) != [] ==>
                && taken == Some(old(isolationQueue)[MinIndex(old(isolationQueue))])
                && isolationQueue == RemoveAt(old(isolationQueue), MinIndex(old(isolationQueue)))
                && effects == old(effects) + IsolationEffects(taken.value.request.component)
      ensures taken.Some? ==> forall e :: e in old(isolationQueue) ==> Precedes(taken.value, e)
    {
      if isolationQueue == [] {
        return None;
      }
      var k := MinIndex(isolationQueue);
      var entry := isolationQueue[k];
      RemoveAtKeepsNumbering(isolationQueue, nextSeq, k);
      isolationQueue := RemoveAt(isolationQueue, k);
      effects := effects + IsolationEffects(entry.request.component);
      taken := Some(entry);
    }

    /**
     * process_isolation_queue until nothing is queued: the entries are handed
     * out in drain order and each leaves its adapter call and notification.
     */
    method ProcessIsolationQueue() returns (handled: seq<Entry>)
      requires Valid()
      modifies this`isolationQueue, this`effects
      ensures Valid()
      ensures isolationQueue == []
      ensures handled == Drain(old(isolationQueue))
      ensures effects == old(effects) + IsolationLog(handled)
    {
      handled := [];
      while isolationQueue != []
        invariant Valid()
        invariant handled + Drain(isolationQueue) == Drain(old(isolationQueue))
        invariant effects == old(effects) + IsolationLog(handled)
        decreases |isolationQueue|
      {
        ghost var before := isolationQueue;
        ghost var handledBefore := handled;
        ghost var effectsBefore := effects;
        var taken := ProcessIsolationStep();
        DrainAfterTaking(handledBefore, before, Drain(old(isolationQueue)));
        IsolationLogAppend(old(effects), handledBefore, taken.value, effectsBefore);
        handled := handled + [taken.value];
      }
    }
  }
}
