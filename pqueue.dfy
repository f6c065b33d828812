/**
 * The priority queue both algorithms use, by its abstract contract: a
 * sequence of (item, priority) entries in arrival order, from which a
 * dequeue takes an entry of minimum priority. Which of several entries of
 * equal priority is taken is left open: the algorithms pick any index that
 * satisfies IsMinAt, so what is proved about them holds for every tie-break.
 */
module PriorityQueues {

  datatype Entry<T> = Entry(item: T, priority: nat)

  /** `k` is the index of an entry of minimum priority. */
  predicate IsMinAt<T>(q: seq<Entry<T>>, k: nat) {
    k < |q| && forall j :: 0 <= j < |q| ==> q[k].priority <= q[j].priority
  }

  /** The first entry of minimum priority; it shows that a non-empty queue has a minimum. */
  function MinIndex<T>(q: seq<Entry<T>>): (k: nat)
    requires |q| > 0
    ensures IsMinAt(q, k)
    ensures forall j :: 0 <= j < k ==> q[k].priority < q[j].priority
    decreases |q|
  {
    if |q| == 1 then 0
    else
      var k := MinIndex(q[..|q| - 1]);
      if q[|q| - 1].priority < q[k].priority then |q| - 1 else k
  }

  /** The queue once the entry at `k` has been dequeued: every other entry stays, in order. */
  function RemoveAt<T>(q: seq<Entry<T>>, k: nat): (r: seq<Entry<T>>)
    requires k < |q|
    ensures |r| == |q| - 1
    ensures forall i :: 0 <= i < |r| ==> r[i] == q[if i < k then i else i + 1]
    ensures forall e :: e in q && e != q[k] ==> e in r
    ensures multiset(r) + multiset{q[k]} == multiset(q)
  {
    assert q == q[..k] + [q[k]] + q[k + 1..];
    q[..k] + q[k + 1..]
  }

  /** `dequeue`: an entry of least priority, and the queue without it. */
  method Dequeue<T>(q: seq<Entry<T>>) returns (e: Entry<T>, q': seq<Entry<T>>, ghost k: nat)
    requires |q| > 0
    ensures e in q && forall j :: 0 <= j < |q| ==> e.priority <= q[j].priority
    ensures |q'| == |q| - 1 && multiset(q') + multiset{e} == multiset(q)
    ensures IsMinAt(q, k) && e == q[k] && q' == RemoveAt(q, k)
  {
    assert IsMinAt(q, MinIndex(q));
    var i: nat :| i < |q| && forall j :: 0 <= j < |q| ==> q[i].priority <= q[j].priority;
    e, q', k := q[i], RemoveAt(q, i), i;
  }
}
