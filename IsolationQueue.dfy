/**
 * `isolation_queue` (SystemGuardian.py:38): a minimum-priority queue of
 * `(priority, request)` pairs, priority 0 being the most urgent. Each entry
 * also carries its arrival number, and among equal priorities the earlier
 * arrival leaves first; the source gives no such rule (it would compare the
 * request dictionaries), so first-in first-out within a priority is a choice
 * of this model.
 */
module IsolationQueue {

  /** The request's `action` field. Nothing that takes requests off the queue reads it. */
  datatype Action = Isolate | Reinstall

  /** The request dictionary `{component, reason, action}`. */
  datatype IsolationRequest = IsolationRequest(component: string, reason: string, action: Action)

  /** One queued pair, with the arrival number that orders equal priorities. */
  datatype Entry = Entry(priority: int, seqNo: nat, request: IsolationRequest)

  /** `a` leaves the queue no later than `b`: lower priority first, then earlier arrival. */
  predicate Precedes(a: Entry, b: Entry) {
    a.priority < b.priority || (a.priority == b.priority && a.seqNo <= b.seqNo)
  }

  /** Arrival numbers increase along the queue and are all below `next`, the number the next arrival gets. */
  ghost predicate WellNumbered(q: seq<Entry>, next: nat) {
    && (forall i, j :: 0 <= i < j < |q| ==> q[i].seqNo < q[j].seqNo)
    && (forall i :: 0 <= i < |q| ==> q[i].seqNo < next)
  }

  /** The position of the entry `get()` hands out: it precedes every entry in the queue. */
  function MinIndex(q: seq<Entry>): (k: nat)
    requires |q| > 0
    ensures k < |q|
    ensures forall i :: 0 <= i < |q| ==> Precedes(q[k], q[i])
  {
    if |q| == 1 then 0
    else
      var k := MinIndex(q[1..]) + 1;
      assert forall i :: 1 <= i < |q| ==> q[i] == q[1..][i - 1];
      if Precedes(q[0], q[k]) then 0 else k
  }

  /** The queue without its entry at `k`. */
  function RemoveAt(q: seq<Entry>, k: nat): (r: seq<Entry>)
    requires k < |q|
    ensures |r| == |q| - 1
    ensures multiset(r) + multiset{q[k]} == multiset(q)
  {
    assert q == q[..k] + [q[k]] + q[k + 1..];
    q[..k] + q[k + 1..]
  }

  /** Taking an entry out keeps the numbering. */
  lemma RemoveAtKeepsNumbering(q: seq<Entry>, next: nat, k: nat)
    requires WellNumbered(q, next) && k < |q|
    ensures WellNumbered(RemoveAt(q, k), next)
  {
    var r := RemoveAt(q, k);
    assert forall i :: 0 <= i < |r| ==> r[i] == q[if i < k then i else i + 1];
  }

  /** Appending an arrival with the next number keeps the numbering. */
  lemma AppendKeepsNumbering(q: seq<Entry>, next: nat, priority: int, request: IsolationRequest)
    requires WellNumbered(q, next)
    ensures WellNumbered(q + [Entry(priority, next, request)], next + 1)
  {
  }

  /** The entries in the order repeated `get()` calls hand them out. */
  function Drain(q: seq<Entry>): (out: seq<Entry>)
    ensures |out| == |q|
    decreases |q|
  {
    if |q| == 0 then []
    else
      var k := MinIndex(q);
      [q[k]] + Drain(RemoveAt(q, k))
  }

  /** The drain of a non-empty queue starts with the entry `get()` hands out first. */
  lemma DrainStep(q: seq<Entry>)
    requires |q| > 0
    ensures Drain(q) == [q[MinIndex(q)]] + Drain(RemoveAt(q, MinIndex(q)))
  {
  }

  lemma DrainAfterTaking(handled: seq<Entry>, before: seq<Entry>, whole: seq<Entry>)
    requires |before| > 0 && handled + Drain(before) == whole
    ensures (handled + [before[MinIndex(before)]]) + Drain(RemoveAt(before, MinIndex(before))) == whole
  {
    DrainStep(before);
    var k := MinIndex(before);
    Regroup(handled, before[k], Drain(RemoveAt(before, k)));
  }

  lemma Regroup(a: seq<Entry>, x: Entry, b: seq<Entry>)
    ensures (a + [x]) + b == a + ([x] + b)
  {
  }

  /** Each entry leaves no later than every entry after it. */
  ghost predicate InServiceOrder(out: seq<Entry>) {
    forall i, j :: 0 <= i < j < |out| ==> Precedes(out[i], out[j])
  }

  /** Draining hands out every queued entry exactly once. */
  lemma {:induction false} DrainIsPermutation(q: seq<Entry>)
    ensures multiset(Drain(q)) == multiset(q)
    decreases |q|
  {
    if |q| > 0 {
      var k := MinIndex(q);
      DrainIsPermutation(RemoveAt(q, k));
    }
  }

  /** Everything the drain hands out was queued. */
  lemma DrainMembers(q: seq<Entry>)
    ensures forall x :: x in Drain(q) ==> x in q
  {
    DrainIsPermutation(q);
    forall x | x in Drain(q) ensures x in q {
      assert x in multiset(Drain(q));
    }
  }

  /** The entry `get()` hands out first precedes every entry still queued after it. */
  lemma FirstPrecedesRest(q: seq<Entry>)
    requires |q| > 0
    ensures forall x :: x in Drain(RemoveAt(q, MinIndex(q))) ==> Precedes(q[MinIndex(q)], x)
  {
    var k := MinIndex(q);
    var r := RemoveAt(q, k);
    DrainMembers(r);
    forall x | x in Drain(r) ensures Precedes(q[k], x) {
      assert x in r;
      var i :| 0 <= i < |r| && r[i] == x;
      assert x == q[if i < k then i else i + 1];
    }
  }

  /**
   * Draining hands out the entries lowest priority first and, within a
   * priority, in arrival order.
   */
  lemma {:induction false} DrainInServiceOrder(q: seq<Entry>)
    ensures InServiceOrder(Drain(q))
    decreases |q|
  {
    if |q| > 0 {
      var k := MinIndex(q);
      var rest := Drain(RemoveAt(q, k));
      DrainInServiceOrder(RemoveAt(q, k));
      FirstPrecedesRest(q);
      var out := [q[k]] + rest;
      forall i, j | 0 <= i < j < |out|
        ensures Precedes(out[i], out[j])
      {
        assert out[j] == rest[j - 1];
        if i > 0 {
          assert out[i] == rest[i - 1];
        }
      }
      assert Drain(q) == out;
    }
  }

  /**
   * Whatever else is queued, priorities never decrease along the drain: every
   * priority-0 request (an error cascade or a registry issue) leaves before
   * any priority-1 request (a warning escalation).
   */
  lemma UrgentLeaveFirst(q: seq<Entry>)
    ensures forall i, j :: 0 <= i < j < |Drain(q)| ==> Drain(q)[i].priority <= Drain(q)[j].priority
  {
    DrainInServiceOrder(q);
  }
}
