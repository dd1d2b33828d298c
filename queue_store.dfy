/** The event queue of background.js: one storage slot under the key
    "ext_v2_event_queue" holding an array of records, capped at the newest
    5000. Storage calls are modelled as atomic reads and writes of the slot. */
module QueueStore {
  import opened Js

  const MaxQueueItems := 5000

  /** The queue a slot holds: its array, or [] when the slot is empty or
      holds anything else. */
  function Stored(slot: Option<Json>): (q: seq<Json>)
  {
    if slot.Some? && slot.value.JArr? then slot.value.items else []
  }

  /** The argument of `setQueue` as an array: a non-array counts as []. */
  function AsQueue(v: Json): seq<Json>
  {
    if v.JArr? then v.items else []
  }

  /** `q.slice(-MAX_QUEUE_ITEMS)` when the queue is over the cap: the newest
      5000 records in their order. */
  function Capped(q: seq<Json>): (r: seq<Json>)
    ensures |r| == if |q| > MaxQueueItems then MaxQueueItems else |q|
    ensures r == q[|q| - |r|..]
  {
    if |q| > MaxQueueItems then q[|q| - MaxQueueItems..] else q
  }

  /** Capping after every push keeps the same records as capping once. */
  lemma CappedSnoc(q: seq<Json>, x: Json)
    ensures Capped(Capped(q) + [x]) == Capped(q + [x])
  {
    if |q| > MaxQueueItems {
      var c := Capped(q);
      assert c + [x] == (q + [x])[|q| - MaxQueueItems..];
      assert (c + [x])[1..] == (q + [x])[|q| + 1 - MaxQueueItems..];
    }
  }

  /** The stored queue after `enqueueItem` of each item in turn. */
  function PushAll(q: seq<Json>, items: seq<Json>): (r: seq<Json>)
    ensures items != [] ==> |r| <= MaxQueueItems
    decreases |items|
  {
    if items == [] then q
    else Capped(PushAll(q, items[..|items| - 1]) + [items[|items| - 1]])
  }

  /** Enqueueing items one by one keeps the newest 5000 of the old queue
      followed by the items. */
  lemma {:induction false} PushAllKeepsNewest(q: seq<Json>, items: seq<Json>)
    requires |items| >= 1
    ensures PushAll(q, items) == Capped(q + items)
    decreases |items|
  {
    var n := |items|;
    var init, x := items[..n - 1], items[n - 1];
    assert items == init + [x];
    if n == 1 {
      assert init == [];
    } else {
      PushAllKeepsNewest(q, init);
      CappedSnoc(q + init, x);
      assert q + init + [x] == q + items;
    }
  }

  class Store {
    /** The value stored under the queue key; None before anything is stored. */
    var slot: Option<Json>

    constructor ()
      ensures slot == None
    {
      slot := None;
    }

    /** `getQueue`: the stored array, or [] when the slot does not hold one. */
    method GetQueue() returns (q: seq<Json>)
      ensures q == Stored(slot)
    {
      if slot.Some? && slot.value.JArr? {
        q := slot.value.items;
      } else {
        q := [];
      }
    }

    /** `setQueue`: stores the newest 5000 records of the argument, or [] for
        a non-array. */
    method SetQueue(v: Json)
      modifies this
      ensures slot == Some(JArr(Capped(AsQueue(v))))
      ensures |Stored(slot)| <= MaxQueueItems
    {
      var q := if v.JArr? then v.items else [];
      if |q| > MaxQueueItems {
        q := q[|q| - MaxQueueItems..];
      }
      slot := Some(JArr(q));
    }

    /** `enqueueItem`: appends and stores, capped; returns the length before
        the cap, so 5001 on a full queue. */
    method EnqueueItem(item: Json) returns (n: nat)
      modifies this
      ensures n == |Stored(old(slot))| + 1
      ensures Stored(slot) == Capped(Stored(old(slot)) + [item])
      ensures slot.Some? && slot.value.JArr?
    {
      var q := GetQueue();
      q := q + [item];
      SetQueue(JArr(q));
      n := |q|;
    }

    /** `flushQueue`: returns every stored record, oldest first, and empties
        the store; with nothing stored it writes nothing. */
    method FlushQueue() returns (flushed: nat, batch: seq<Json>)
      modifies this
      ensures batch == Stored(old(slot)) && flushed == |batch|
      ensures batch == [] ==> slot == old(slot)
      ensures batch != [] ==> slot == Some(JArr([]))
    {
      var q := GetQueue();
      if |q| == 0 {
        return 0, [];
      }
      var snapshot := q;
      SetQueue(JArr([]));
      return |snapshot|, snapshot;
    }

    /** `getCount`: the number of stored records. */
    method GetCount() returns (n: nat)
      ensures n == |Stored(slot)|
    {
      var q := GetQueue();
      n := |q|;
    }

    /** `clearQueue`: stores the empty queue. */
    method ClearQueue() returns (ok: bool)
      modifies this
      ensures ok && slot == Some(JArr([]))
    {
      SetQueue(JArr([]));
      ok := true;
    }
  }
}
