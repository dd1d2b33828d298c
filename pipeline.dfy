/** The glue of content.js: `logEvent` stamps a record with its console tag
    and hands it to the batcher; the beforeunload handler drains the batcher
    and logs its own record; the rage-click and typing detectors log what
    they signal; `stopAll` tears everything down. Feature flags, the clock
    and the page facts the handlers read are parameters. */
module Pipeline {
  import opened Js
  import opened Batching
  import RageClick
  import TypingCadence
  import EventRegistry

  /** The feature flags these handlers consult. */
  datatype Flags = Flags(batching: bool, beforeUnload: bool, rageClick: bool, typingSpeed: bool)

  /** `Object.assign({ _consoleTag: tag }, payload)`: the payload's own
      entries over the tag, so a payload that carries `_consoleTag` keeps
      its own. */
  function Tagged(tag: string, payload: Json): (r: Json)
    ensures r.JObj? && r.fields.Keys == {"_consoleTag"} + OwnEntries(payload).Keys
    ensures forall k :: k in OwnEntries(payload) ==> r.fields[k] == OwnEntries(payload)[k]
    ensures "_consoleTag" !in OwnEntries(payload) ==> r.fields["_consoleTag"] == JStr(tag)
  {
    JObj(Assign(map["_consoleTag" := JStr(tag)], OwnEntries(payload)))
  }

  /** `logEvent`'s enqueue step; the console and messaging side is not part
      of this model. */
  method LogEvent(b: Batcher, flags: Flags, tag: string, payload: Json)
    modifies b`queue
    ensures b.queue == if flags.batching then old(b.queue) + [Tagged(tag, payload)] else old(b.queue)
  {
    b.Enqueue(Tagged(tag, payload), flags.batching);
  }

  /** `{ time, pageUrl }`. */
  function PageRecord(time: string, pageUrl: string): Json
  {
    JObj(map["time" := JStr(time), "pageUrl" := JStr(pageUrl)])
  }

  /** `handleBeforeUnload`: with batching on, takes every pending record and
      reports on it without the payload, then logs the unload itself. When
      the compressor throws, the pending records are gone and the unload is
      not logged. */
  method HandleBeforeUnload(b: Batcher, flags: Flags, time: string, pageUrl: string, stringify: Json -> Utf16)
    returns (drain: Flushed)
    modifies b`queue
    ensures !flags.beforeUnload ==> drain == Idle && b.queue == old(b.queue)
    ensures flags.beforeUnload && flags.batching && old(b.queue) != [] ==>
      drain == match Summarize(time, old(b.queue), stringify, false)
               case None => Threw
               case Some(report) => Reported(report)
    ensures flags.beforeUnload && !(flags.batching && old(b.queue) != []) ==> drain == Idle
    ensures drain.Threw? ==> b.queue == []
    ensures WellFormedSerialiser(stringify) ==> !drain.Threw?
    ensures flags.beforeUnload && !drain.Threw? ==>
      b.queue == if flags.batching then [Tagged("[BeforeUnload]", PageRecord(time, pageUrl))] else old(b.queue)
  {
    if !flags.beforeUnload {
      return Idle;
    }
    drain := Idle;
    if flags.batching && |b.queue| > 0 {
      var batch := b.queue;
      b.queue := [];
      match Summarize(time, batch, stringify, false) {
        case None =>
          return Threw;
        case Some(report) =>
          drain := Reported(report);
      }
    }
    LogEvent(b, flags, "[BeforeUnload]", PageRecord(time, pageUrl));
  }

  /** The record a rage click logs. */
  function RageRecord(time: string, pageUrl: string, s: RageClick.Signal, width: int, height: int): Json
  {
    JObj(map[
      "time" := JStr(time),
      "pageUrl" := JStr(pageUrl),
      "center" := JObj(map["x" := JNum(s.x), "y" := JNum(s.y)]),
      "count" := JNum(s.count),
      "windowSize" := JObj(map["w" := JNum(width), "h" := JNum(height)])])
  }

  /** `detectRageClick` for a click at (x, y) at time `now`. */
  method DetectRageClick(d: RageClick.Detector, b: Batcher, flags: Flags, x: int, y: int, now: int,
                         time: string, pageUrl: string, width: int, height: int)
    returns (signal: Option<RageClick.Signal>)
    modifies d, b`queue
    ensures !flags.rageClick ==> signal == None && d.recentClicks == old(d.recentClicks) && b.queue == old(b.queue)
    ensures flags.rageClick ==> (d.recentClicks, signal) == RageClick.Observe(old(d.recentClicks), RageClick.Click(x, y, now))
    ensures flags.rageClick ==>
      b.queue == old(b.queue) + if flags.batching && signal.Some? then [Tagged("[RageClick]", RageRecord(time, pageUrl, signal.value, width, height))] else []
  {
    if !flags.rageClick {
      return None;
    }
    signal := d.Detect(x, y, now);
    if signal.Some? {
      LogEvent(b, flags, "[RageClick]", RageRecord(time, pageUrl, signal.value, width, height));
    }
  }

  /** The record a typing signal logs; an empty id or name is null. */
  function TypingRecord(time: string, pageUrl: string, tagName: string, elId: string, elName: string,
                        c: TypingCadence.Cadence): Json
  {
    JObj(map[
      "time" := JStr(time),
      "pageUrl" := JStr(pageUrl),
      "target" := JObj(map[
        "tag" := JStr(tagName),
        "id" := if elId == "" then JNull else JStr(elId),
        "name" := if elName == "" then JNull else JStr(elName)]),
      "avgMsBetweenKeys" := JNum(c.avgMsBetweenKeys),
      "sampleCount" := JNum(c.sampleCount)])
  }

  /** `trackTypingSpeed` for a keystroke into `el` at time `now`. */
  method TrackTypingSpeed(t: TypingCadence.Tracker, b: Batcher, flags: Flags, el: TypingCadence.Element?, now: int,
                          time: string, pageUrl: string, tagName: string, elId: string, elName: string)
    returns (signal: Option<TypingCadence.Cadence>)
    requires t.Valid()
    modifies t, b`queue
    ensures t.Valid()
    ensures !flags.typingSpeed ==> signal == None && t.states == old(t.states) && b.queue == old(b.queue)
    ensures flags.typingSpeed && el == null ==> signal == None && t.states == old(t.states)
    ensures flags.typingSpeed && el != null ==>
      var (st, sig) := TypingCadence.Keystroke(if el in old(t.states) then Some(old(t.states)[el]) else None, now);
      t.states == old(t.states)[el := st] && signal == sig
    ensures flags.typingSpeed ==>
      b.queue == old(b.queue) + if flags.batching && signal.Some? then [Tagged("[TypingSpeed]", TypingRecord(time, pageUrl, tagName, elId, elName, signal.value))] else []
  {
    if !flags.typingSpeed {
      return None;
    }
    signal := t.Track(el, now);
    if signal.Some? {
      LogEvent(b, flags, "[TypingSpeed]", TypingRecord(time, pageUrl, tagName, elId, elName, signal.value));
    }
  }

  /** `stopAll`: unbinds every listener and stops the batch timer. */
  method StopAll(r: EventRegistry.Registry, b: Batcher)
    modifies r, b`intervalId
    ensures r.bindings == map[] && b.intervalId == None
  {
    r.RemoveAll();
    b.Stop();
  }
}
