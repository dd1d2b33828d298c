/** The request handler of background.js: a message `{type, payload}` is
    classified by its type, served against the queue store, and answered with
    an `{ok, ...}` reply. Each request is served as one atomic step; the time
    is a parameter. */
module Dispatcher {
  import opened Js
  import opened QueueStore

  /** The number of flushed records a reply echoes back. */
  const SampleSize := 20

  datatype Request =
    | Invalid
    | Ping
    | Enqueue(payload: Json)
    | GetPendingCount
    | Flush
    | Clear
    | Unknown(kind: string)

  datatype Reply =
    | Pong(ts: int)
    | Queued
    | Count(count: nat)
    | Flushed(flushed: nat, sample: seq<Json>)
    | Cleared
    | Error(error: string)

  /** The message types the handler serves. */
  const KnownTypes: set<string> := {"PING", "ENQUEUE", "GET_PENDING_COUNT", "FLUSH_QUEUE", "CLEAR_QUEUE"}

  predicate HasStringType(msg: Json)
  {
    msg.JObj? && "type" in msg.fields && msg.fields["type"].JStr?
  }

  /** The request a message makes. A falsy message, a message that is not an
      object or one whose `type` is not a string is invalid; an absent
      payload reads as null. */
  function Classify(msg: Json): (r: Request)
    ensures r.Invalid? <==> !HasStringType(msg)
    ensures HasStringType(msg) ==>
      var kind := msg.fields["type"].s;
      && (r == Ping <==> kind == "PING")
      && (r.Enqueue? <==> kind == "ENQUEUE")
      && (r == GetPendingCount <==> kind == "GET_PENDING_COUNT")
      && (r == Flush <==> kind == "FLUSH_QUEUE")
      && (r == Clear <==> kind == "CLEAR_QUEUE")
      && (r.Unknown? <==> kind !in KnownTypes)
      && (r.Unknown? ==> r.kind == kind)
    ensures r.Enqueue? ==> r.payload == if "payload" in msg.fields then msg.fields["payload"] else JNull
  {
    if !Truthy(msg) || !HasStringType(msg) then Invalid
    else
      var kind := msg.fields["type"].s;
      if kind == "PING" then Ping
      else if kind == "ENQUEUE" then Enqueue(if "payload" in msg.fields then msg.fields["payload"] else JNull)
      else if kind == "GET_PENDING_COUNT" then GetPendingCount
      else if kind == "FLUSH_QUEUE" then Flush
      else if kind == "CLEAR_QUEUE" then Clear
      else Unknown(kind)
  }

  /** `Object.assign({ _ts: now }, payload || {})`. */
  function Stamped(payload: Json, now: int): (r: Json)
    ensures r.JObj? && "_ts" in r.fields
    ensures forall k :: k in OwnEntries(payload) && Truthy(payload) ==> k in r.fields && r.fields[k] == OwnEntries(payload)[k]
    ensures "_ts" !in OwnEntries(payload) ==> r.fields["_ts"] == JNum(now)
    ensures r.fields.Keys == {"_ts"} + (if Truthy(payload) then OwnEntries(payload).Keys else {})
  {
    JObj(Assign(map["_ts" := JNum(now)], if Truthy(payload) then OwnEntries(payload) else map[]))
  }

  /** The first min(20, n) records. */
  function Sample(batch: seq<Json>): (r: seq<Json>)
    ensures |r| == if |batch| < SampleSize then |batch| else SampleSize
    ensures r == batch[..|r|]
  {
    if |batch| <= SampleSize then batch else batch[..SampleSize]
  }

  /** The new slot and the reply for one request. */
  function Serve(slot: Option<Json>, req: Request, now: int): (r: (Option<Json>, Reply))
    ensures r.1.Error? <==> req.Invalid? || req.Unknown?
    ensures !(req.Enqueue? || req.Flush? || req.Clear?) ==> r.0 == slot
    ensures |Stored(slot)| <= MaxQueueItems ==> |Stored(r.0)| <= MaxQueueItems
  {
    match req
    case Invalid => (slot, Error("invalid_message"))
    case Ping => (slot, Pong(now))
    case Enqueue(payload) => (Some(JArr(Capped(Stored(slot) + [Stamped(payload, now)]))), Queued)
    case GetPendingCount => (slot, Count(|Stored(slot)|))
    case Flush =>
      var q := Stored(slot);
      (if q == [] then slot else Some(JArr([])), Flushed(|q|, Sample(q)))
    case Clear => (Some(JArr([])), Cleared)
    case Unknown(_) => (slot, Error("unknown_type"))
  }

  /** The reply object sent back. */
  function ReplyObject(r: Reply): (j: Json)
    ensures j.JObj? && "ok" in j.fields
    ensures j.fields["ok"] == JBool(!r.Error?)
    ensures r.Error? ==> j.fields == map["ok" := JBool(false), "error" := JStr(r.error)]
  {
    match r
    case Pong(ts) => JObj(map["ok" := JBool(true), "pong" := JBool(true), "ts" := JNum(ts)])
    case Queued => JObj(map["ok" := JBool(true), "queued" := JBool(true)])
    case Count(n) => JObj(map["ok" := JBool(true), "count" := JNum(n)])
    case Flushed(n, sample) => JObj(map["ok" := JBool(true), "flushed" := JNum(n), "sample" := JArr(sample)])
    case Cleared => JObj(map["ok" := JBool(true), "cleared" := JBool(true)])
    case Error(e) => JObj(map["ok" := JBool(false), "error" := JStr(e)])
  }

  /** Handles one message against the store and returns the reply object. */
  method Dispatch(store: Store, msg: Json, now: int) returns (reply: Json)
    modifies store
    ensures var (slot, r) := Serve(old(store.slot), Classify(msg), now);
            store.slot == slot && reply == ReplyObject(r)
  {
    if !Truthy(msg) || !HasStringType(msg) {
      return ReplyObject(Error("invalid_message"));
    }
    var kind := msg.fields["type"].s;
    if kind == "PING" {
      reply := ReplyObject(Pong(now));
    } else if kind == "ENQUEUE" {
      var payload := if "payload" in msg.fields then msg.fields["payload"] else JNull;
      var _ := store.EnqueueItem(Stamped(payload, now));
      reply := ReplyObject(Queued);
    } else if kind == "GET_PENDING_COUNT" {
      var count := store.GetCount();
      reply := ReplyObject(Count(count));
    } else if kind == "FLUSH_QUEUE" {
      var flushed, batch := store.FlushQueue();
      reply := ReplyObject(Flushed(flushed, Sample(batch)));
    } else if kind == "CLEAR_QUEUE" {
      var _ := store.ClearQueue();
      reply := ReplyObject(Cleared);
    } else {
      reply := ReplyObject(Error("unknown_type"));
    }
  }

  // ---------------------------------------------------------------------
  // Properties

  /** A reply is an error exactly for an invalid message or an unknown type,
      and an error leaves the store alone. */
  lemma ErrorsExactly(slot: Option<Json>, msg: Json, now: int)
    ensures var (slot', r) := Serve(slot, Classify(msg), now);
            && (r == Error("invalid_message") <==> !HasStringType(msg))
            && (r == Error("unknown_type") <==> Classify(msg).Unknown?)
            && (r.Error? ==> slot' == slot)
  {
  }

  /** A flush replies with the number of stored records and the first
      min(20, n) of them, and leaves the store empty. */
  lemma FlushReply(slot: Option<Json>, now: int)
    ensures var (slot', r) := Serve(slot, Flush, now);
            && r.flushed == |Stored(slot)|
            && r.sample == Stored(slot)[..if |Stored(slot)| < SampleSize then |Stored(slot)| else SampleSize]
            && Stored(slot') == []
  {
  }

  /** One ENQUEUE request: its payload and the time `Date.now()` reads while
      serving it. */
  datatype Arrival = Arrival(payload: Json, now: int)

  /** The state after the ENQUEUE requests of `arrivals`, in order. */
  function EnqueueAll(slot: Option<Json>, arrivals: seq<Arrival>): Option<Json>
    decreases |arrivals|
  {
    if arrivals == [] then slot
    else
      var a := arrivals[|arrivals| - 1];
      Serve(EnqueueAll(slot, arrivals[..|arrivals| - 1]), Enqueue(a.payload), a.now).0
  }

  /** The records those requests store: each payload stamped with the time
      of its own request. */
  function Records(arrivals: seq<Arrival>): (r: seq<Json>)
    ensures |r| == |arrivals|
  {
    seq(|arrivals|, k requires 0 <= k < |arrivals| => Stamped(arrivals[k].payload, arrivals[k].now))
  }

  lemma RecordsSnoc(arrivals: seq<Arrival>)
    requires |arrivals| >= 1
    ensures var a := arrivals[|arrivals| - 1];
            Records(arrivals) == Records(arrivals[..|arrivals| - 1]) + [Stamped(a.payload, a.now)]
  {
  }

  /** The ENQUEUE requests push their stamped records one by one. */
  lemma {:induction false} EnqueueAllPushes(slot: Option<Json>, arrivals: seq<Arrival>)
    requires |arrivals| >= 1
    ensures Stored(EnqueueAll(slot, arrivals)) == PushAll(Stored(slot), Records(arrivals))
    decreases |arrivals|
  {
    var n := |arrivals|;
    var init := arrivals[..n - 1];
    RecordsSnoc(arrivals);
    var R, RI := Records(arrivals), Records(init);
    assert R[..n - 1] == RI;
    if n > 1 {
      EnqueueAllPushes(slot, init);
    } else {
      assert RI == [];
    }
  }

  /** After any number of ENQUEUE requests, at any times, the store holds the
      newest 5000 of the old records followed by the new ones. */
  lemma EnqueueAllKeepsNewest(slot: Option<Json>, arrivals: seq<Arrival>)
    requires |arrivals| >= 1
    ensures Stored(EnqueueAll(slot, arrivals)) == Capped(Stored(slot) + Records(arrivals))
  {
    EnqueueAllPushes(slot, arrivals);
    PushAllKeepsNewest(Stored(slot), Records(arrivals));
  }

  /** From an empty store, 5010 ENQUEUE requests leave 5000 records, the
      last 5000 in order, and the count reply says so. */
  lemma FiveThousandTen(arrivals: seq<Arrival>, now: int)
    requires |arrivals| == 5010
    ensures Stored(EnqueueAll(None, arrivals)) == Records(arrivals)[10..]
    ensures Serve(EnqueueAll(None, arrivals), GetPendingCount, now).1 == Count(5000)
  {
    var R := Records(arrivals);
    EnqueueAllKeepsNewest(None, arrivals);
    assert Stored(None) + R == R;
    var q := Stored(EnqueueAll(None, arrivals));
    assert q == Capped(R);
    assert |q| == 5000;
  }

  /** From an empty store, 25 ENQUEUE requests and a flush reply with 25
      flushed records and the first 20 of them as the sample. */
  lemma TwentyFiveThenFlush(arrivals: seq<Arrival>, now: int)
    requires |arrivals| == 25
    ensures Serve(EnqueueAll(None, arrivals), Flush, now).1 == Flushed(25, Records(arrivals)[..20])
  {
    var R := Records(arrivals);
    EnqueueAllKeepsNewest(None, arrivals);
    assert Stored(None) + R == R;
    FlushReply(EnqueueAll(None, arrivals), now);
  }
}
