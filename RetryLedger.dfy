/**
 * The retry bookkeeping of handle_warning (SystemGuardian.py:186-219): a
 * record `{count, last_attempt}` per component id in `retry_registry`, reset
 * lazily once more than an hour has passed since `last_attempt`, with at most
 * three failed repairs counted before the warning escalates to isolation.
 * Time is an integer number of seconds read from the wall clock, which may
 * go backwards; nothing here assumes it is monotonic.
 */
module RetryLedger {

  const MAX_RETRIES: nat := 3
  /** `timedelta(hours=1)`, in seconds. */
  const RETRY_WINDOW: int := 3600

  datatype RetryRecord = RetryRecord(count: nat, lastAttempt: int)

  /** `retry_registry`: component id to its record. */
  type Ledger = map<string, RetryRecord>

  /** No record has counted more than the allowed number of failed repairs. */
  ghost predicate WithinBudget(ledger: Ledger) {
    forall c :: c in ledger ==> ledger[c].count <= MAX_RETRIES
  }

  /** The record window has expired: strictly more than an hour since the last attempt. */
  predicate Expired(rec: RetryRecord, now: int) {
    now - rec.lastAttempt > RETRY_WINDOW
  }

  /**
   * Lines 192-203: a missing record is created, an expired one replaced by a
   * fresh one; any other record is left as it is.
   */
  function Refreshed(ledger: Ledger, component: string, now: int): (l: Ledger)
    ensures component in l
    ensures l.Keys == ledger.Keys + {component}
    ensures forall c :: c in ledger && c != component ==> l[c] == ledger[c]
    ensures component in ledger && !Expired(ledger[component], now) ==> l == ledger
    ensures component !in ledger || Expired(ledger[component], now) ==> l[component] == RetryRecord(0, now)
  {
    if component !in ledger || Expired(ledger[component], now) then
      ledger[component := RetryRecord(0, now)]
    else
      ledger
  }

  /** The three ways handle_warning can end. */
  datatype Outcome =
    | Repaired      // a repair was attempted and succeeded
    | RepairFailed  // a repair was attempted, failed, and was counted
    | Escalated     // the budget was spent: an isolation request was enqueued

  /**
   * Which way handle_warning ends; `repaired` is what attempt_repair returns,
   * and it is only consulted while the budget lasts.
   */
  function WarningOutcome(ledger: Ledger, component: string, now: int, repaired: bool): (o: Outcome)
    ensures o == Escalated <==> Refreshed(ledger, component, now)[component].count >= MAX_RETRIES
  {
    if Refreshed(ledger, component, now)[component].count < MAX_RETRIES then
      if repaired then Repaired else RepairFailed
    else
      Escalated
  }

  /**
   * `retry_registry` after handle_warning: only the warned component's record
   * may differ, it always exists afterwards, and the budget bound is kept.
   */
  function LedgerAfterWarning(ledger: Ledger, component: string, now: int, repaired: bool): (l: Ledger)
    ensures l.Keys == ledger.Keys + {component}
    ensures forall c :: c in ledger && c != component ==> l[c] == ledger[c]
    ensures WithinBudget(ledger) ==> WithinBudget(l)
  {
    var refreshed := Refreshed(ledger, component, now);
    var rec := refreshed[component];
    if rec.count < MAX_RETRIES && !repaired then
      refreshed[component := RetryRecord(rec.count + 1, now)]
    else
      refreshed
  }

  /** A failed repair inside the budget counts exactly one more attempt, made now. */
  lemma FailedRepairCounted(ledger: Ledger, component: string, now: int)
    requires Refreshed(ledger, component, now)[component].count < MAX_RETRIES
    ensures WarningOutcome(ledger, component, now, false) == RepairFailed
    ensures LedgerAfterWarning(ledger, component, now, false)[component]
            == RetryRecord(Refreshed(ledger, component, now)[component].count + 1, now)
  {
  }

  /**
   * A successful repair leaves the (possibly just created or reset) record as
   * it is: success does not clear the record.
   */
  lemma SuccessLeavesRecord(ledger: Ledger, component: string, now: int)
    requires Refreshed(ledger, component, now)[component].count < MAX_RETRIES
    ensures WarningOutcome(ledger, component, now, true) == Repaired
    ensures LedgerAfterWarning(ledger, component, now, true) == Refreshed(ledger, component, now)
  {
  }

  /**
   * A spent budget inside the window: the warning escalates, whatever a repair
   * would have done, and the ledger is not touched at all.
   */
  lemma ExhaustedEscalatesUnchanged(ledger: Ledger, component: string, now: int, repaired: bool)
    requires component in ledger && ledger[component].count >= MAX_RETRIES
    requires !Expired(ledger[component], now)
    ensures WarningOutcome(ledger, component, now, repaired) == Escalated
    ensures LedgerAfterWarning(ledger, component, now, repaired) == ledger
  {
  }

  /**
   * Once the window has expired the old record is forgotten: the warning is
   * handled exactly as if the component had never been seen.
   */
  lemma ExpiredRecordForgotten(ledger: Ledger, component: string, now: int, repaired: bool)
    requires component in ledger && Expired(ledger[component], now)
    ensures WarningOutcome(ledger, component, now, repaired)
            == WarningOutcome(ledger - {component}, component, now, repaired)
    ensures LedgerAfterWarning(ledger, component, now, repaired)
            == LedgerAfterWarning(ledger - {component}, component, now, repaired)
  {
    assert Refreshed(ledger, component, now) == Refreshed(ledger - {component}, component, now);
  }

  /**
   * Successive warnings for one component whose repairs all fail: the ledger
   * at the end and the outcome of each warning, in order.
   */
  function FailingRun(ledger: Ledger, component: string, times: seq<int>): (Ledger, seq<Outcome>)
    decreases |times|
  {
    if |times| == 0 then (ledger, [])
    else
      var o := WarningOutcome(ledger, component, times[0], false);
      var next := LedgerAfterWarning(ledger, component, times[0], false);
      var rest := FailingRun(next, component, times[1..]);
      (rest.0, [o] + rest.1)
  }

  function Min(a: nat, b: nat): nat {
    if a <= b then a else b
  }

  /**
   * Warnings that all fall within an hour after `t0`, on a record that was
   * last attempted no earlier than `t0`: no reset happens, each failure counts
   * until the budget is spent, and every warning after that escalates.
   */
  lemma {:induction false} FailingRunWithinWindow(ledger: Ledger, component: string, times: seq<int>, t0: int)
    requires component in ledger && ledger[component].count <= MAX_RETRIES
    requires t0 <= ledger[component].lastAttempt
    requires forall i :: 0 <= i < |times| ==> t0 <= times[i] <= t0 + RETRY_WINDOW
    ensures var run := FailingRun(ledger, component, times);
            && |run.1| == |times|
            && component in run.0
            && run.0[component].count == Min(ledger[component].count + |times|, MAX_RETRIES)
            && forall i :: 0 <= i < |times| ==>
                 (run.1[i] == Escalated <==> ledger[component].count + i >= MAX_RETRIES)
    decreases |times|
  {
    if |times| > 0 {
      var k := ledger[component].count;
      var next := LedgerAfterWarning(ledger, component, times[0], false);
      assert Refreshed(ledger, component, times[0]) == ledger;
      assert next[component].count == Min(k + 1, MAX_RETRIES);
      assert t0 <= next[component].lastAttempt;
      assert forall i :: 0 <= i < |times[1..]| ==> times[1..][i] == times[i + 1];
      FailingRunWithinWindow(next, component, times[1..], t0);
      var run := FailingRun(ledger, component, times);
      var rest := FailingRun(next, component, times[1..]);
      FailingRunStep(ledger, component, times);
      forall i | 1 <= i < |times|
        ensures run.1[i] == Escalated <==> k + i >= MAX_RETRIES
      {
        assert run.1[i] == rest.1[i - 1];
      }
    }
  }

  /**
   * The retry budget as the source implements it: for a component with no
   * record, of the warnings arriving within one hour of the first, with every
   * repair failing, exactly the first three attempt a repair and every later
   * one escalates to isolation.
   */
  lemma AtMostThreeRepairsPerHour(ledger: Ledger, component: string, times: seq<int>)
    requires component !in ledger && |times| >= 1
    requires forall i :: 0 <= i < |times| ==> times[0] <= times[i] <= times[0] + RETRY_WINDOW
    ensures var run := FailingRun(ledger, component, times);
            && |run.1| == |times|
            && component in run.0 && run.0[component].count == Min(|times|, MAX_RETRIES)
            && forall i :: 0 <= i < |times| ==> (run.1[i] == Escalated <==> i >= MAX_RETRIES)
  {
    var next := LedgerAfterWarning(ledger, component, times[0], false);
    assert next[component] == RetryRecord(1, times[0]);
    assert forall i :: 0 <= i < |times[1..]| ==> times[1..][i] == times[i + 1];
    FailingRunWithinWindow(next, component, times[1..], times[0]);
    var run := FailingRun(ledger, component, times);
    var rest := FailingRun(next, component, times[1..]);
    FailingRunStep(ledger, component, times);
    forall i | 1 <= i < |times|
      ensures run.1[i] == Escalated <==> i >= MAX_RETRIES
    {
      assert run.1[i] == rest.1[i - 1];
    }
  }

  /**
   * The window restarts at every failed attempt rather than at the first one:
   * failures at 0, 3000 and 6000 seconds are all counted, and a warning at
   * 6500 seconds, more than an hour after the first failure, still escalates.
   */
  lemma WindowSlidesWithLastFailure(ledger: Ledger, component: string, times: seq<int>)
    requires component !in ledger && times == [0, 3000, 6000, 6500]
    ensures FailingRun(ledger, component, times).1 == [RepairFailed, RepairFailed, RepairFailed, Escalated]
  {
    var l1 := LedgerAfterWarning(ledger, component, 0, false);
    assert l1[component] == RetryRecord(1, 0);
    var l2 := LedgerAfterWarning(l1, component, 3000, false);
    assert l2[component] == RetryRecord(2, 3000);
    var l3 := LedgerAfterWarning(l2, component, 6000, false);
    assert l3[component] == RetryRecord(3, 6000);
    FailingRunStep(l3, component, [6500]);
    assert WarningOutcome(l3, component, 6500, false) == Escalated;
    FailingRunStep(l2, component, [6000, 6500]);
    assert [6000, 6500][1..] == [6500];
    FailingRunStep(l1, component, [3000, 6000, 6500]);
    assert [3000, 6000, 6500][1..] == [6000, 6500];
    FailingRunStep(ledger, component, times);
    assert times[1..] == [3000, 6000, 6500];
  }

  /** The first warning of a run, followed by the rest of the run on the ledger it leaves. */
  lemma FailingRunStep(ledger: Ledger, component: string, times: seq<int>)
    requires |times| > 0
    ensures FailingRun(ledger, component, times).1
            == [WarningOutcome(ledger, component, times[0], false)]
               + FailingRun(LedgerAfterWarning(ledger, component, times[0], false), component, times[1..]).1
  {
  }
}
