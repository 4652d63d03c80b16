/** The FreeRTOS queues of the firmware as used with a zero wait time:
    `xQueueSend(q, &item, 0)` never blocks and, on a full queue, gives up,
    so the new item is lost and the items already queued are kept. */
module BoundedQueue {

  import opened Wrappers

  /** Zero-wait enqueue on a queue of capacity `cap`. */
  function TryEnqueue<T>(q: seq<T>, cap: nat, x: T): (r: seq<T>)
    ensures |q| < cap ==> r == q + [x]
    ensures |q| >= cap ==> r == q
    ensures q <= r
  {
    if |q| < cap then q + [x] else q
  }

  /** Enqueues every item in order, each with zero wait. */
  function EnqueueAll<T>(q: seq<T>, cap: nat, xs: seq<T>): seq<T>
    decreases |xs|
  {
    if |xs| == 0 then q else EnqueueAll(TryEnqueue(q, cap, xs[0]), cap, xs[1..])
  }

  function Min(a: int, b: int): int { if a <= b then a else b }

  /** Offering items one by one to a queue that is not over capacity keeps
      exactly the oldest ones that fit: the first `cap` of what was queued
      followed by what was offered, and nothing else. */
  lemma {:induction false} EnqueueAllKeepsOldest<T>(q: seq<T>, cap: nat, xs: seq<T>)
    requires |q| <= cap
    ensures EnqueueAll(q, cap, xs) == (q + xs)[..Min(cap, |q| + |xs|)]
    decreases |xs|
  {
    if |xs| > 0 {
      var q' := TryEnqueue(q, cap, xs[0]);
      EnqueueAllKeepsOldest(q', cap, xs[1..]);
      if |q| < cap {
        assert q' + xs[1..] == q + xs;
      } else {
        assert EnqueueAll(q', cap, xs[1..]) == q[..Min(cap, |q| + |xs| - 1)];
        assert (q + xs)[..cap] == q;
      }
    }
  }

  /** Dequeue: the oldest item and the queue left behind, or nothing on an
      empty queue. */
  function TryDequeue<T>(q: seq<T>): (r: Option<(T, seq<T>)>)
    ensures r.None? <==> |q| == 0
    ensures r.Some? ==> [r.value.0] + r.value.1 == q
  {
    if |q| == 0 then None else Some((q[0], q[1..]))
  }
}
