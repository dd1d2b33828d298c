/** The `Batcher` of content.js: records wait in a pending array until a
    flush takes them all, serialises them with a timestamp, compresses the
    text and reports sizes; an interval timer, started once, flushes with the
    full payload. */
module Batching {
  import opened Js
  import Lzw
  import Utf8
  import Base64

  /** The report a flush logs (`out`); `compressed` is present only for a
      full-payload flush. */
  datatype Report = Report(
    time: string,
    events: nat,
    originalSize: nat,
    compressedBase64Length: nat,
    compressed: Option<Utf16>)

  /** What a flush did: nothing was pending, it reported, or the compressor
      threw (after the pending records had been taken). */
  datatype Flushed = Idle | Reported(report: Report) | Threw

  /** The object that is serialised: `{ time, batch }`. */
  function BatchRecord(time: string, batch: seq<Json>): (j: Json)
    ensures j.JObj? && j.fields.Keys == {"time", "batch"}
    ensures j.fields["batch"] == JArr(batch)
  {
    JObj(map["time" := JStr(time), "batch" := JArr(batch)])
  }

  /** Serialise and compress a batch and build its report; None is the
      URIError the compressor lets escape. Shared by `flush` and the
      beforeunload drain. The serialiser is a parameter. A report counts the
      batch, measures the serialised text in UTF-16 code units and the
      compressor's base64 output likewise whatever the flush, and carries
      that text itself exactly for a full-payload flush. It is missing
      exactly when the compressor throws, and only when the serialised text
      holds a lone surrogate, which `JSON.stringify` never produces. */
  function Summarize(time: string, batch: seq<Json>, stringify: Json -> Utf16, full: bool): (r: Option<Report>)
    ensures Utf8.WellFormed(stringify(BatchRecord(time, batch))) ==> r.Some?
    ensures r.Some? <==> Lzw.Compress(stringify(BatchRecord(time, batch))).Ok?
    ensures r.Some? ==>
      r.value.compressedBase64Length == |Lzw.Compress(stringify(BatchRecord(time, batch))).text|
    ensures r.Some? && full ==>
      r.value.compressed == Some(Lzw.Compress(stringify(BatchRecord(time, batch))).text)
    ensures r.Some? ==>
      && r.value.time == time
      && r.value.events == |batch|
      && r.value.originalSize == |stringify(BatchRecord(time, batch))|
      && (r.value.compressed.Some? <==> full)
      && (full ==> r.value.compressedBase64Length == |r.value.compressed.value|
                   && Base64.IsText(r.value.compressed.value))
  {
    var json := stringify(BatchRecord(time, batch));
    match Lzw.Compress(json)
    case UriError => None
    case Ok(compressed) =>
      Some(Report(time, |batch|, |json|, |compressed|, if full then Some(compressed) else None))
  }

  /** A serialiser that never emits a lone surrogate, as `JSON.stringify`
      does since it escapes them (section 24.5.2 of ECMA-262, 10th edition). */
  ghost predicate WellFormedSerialiser(stringify: Json -> Utf16)
  {
    forall j :: Utf8.WellFormed(stringify(j))
  }

  /** The compressed payload of a full flush gives back the serialised batch
      when that text is Latin-1 and short enough for the code stream to stay
      below the surrogate range. */
  lemma SummaryRecoversBatch(time: string, batch: seq<Json>, stringify: Json -> Utf16)
    requires 1 <= |stringify(BatchRecord(time, batch))| <= Lzw.SafeLength
    requires Lzw.Latin1(stringify(BatchRecord(time, batch)))
    ensures Summarize(time, batch, stringify, true).Some?
    ensures Summarize(time, batch, stringify, true).value.compressed.Some?
    ensures Lzw.Decompress(Summarize(time, batch, stringify, true).value.compressed.value) ==
            Some(stringify(BatchRecord(time, batch)))
  {
    Lzw.RoundTrip(stringify(BatchRecord(time, batch)));
  }

  class Batcher {
    /** The pending records, oldest first. */
    var queue: seq<Json>
    /** The interval timer's handle while it runs. */
    var intervalId: Option<nat>

    /** The module starts its timer as soon as it is built. */
    constructor (handle: nat)
      ensures queue == [] && intervalId == Some(handle)
    {
      queue := [];
      intervalId := Some(handle);
    }

    /** Appends a record when batching is on; otherwise the record is only
        written to the console and the pending array is left alone. */
    method Enqueue(obj: Json, batching: bool)
      modifies this`queue
      ensures queue == if batching then old(queue) + [obj] else old(queue)
    {
      if !batching {
        return;
      }
      queue := queue + [obj];
    }

    /** Takes every pending record and reports on it. With nothing pending it
        changes nothing. The records are taken before compressing, so when
        the compressor throws they are gone. */
    method Flush(logFullPayload: bool, time: string, stringify: Json -> Utf16) returns (r: Flushed)
      modifies this`queue
      ensures old(queue) == [] ==> r == Idle && queue == []
      ensures old(queue) != [] ==> queue == []
      ensures old(queue) != [] ==> r == match Summarize(time, old(queue), stringify, logFullPayload)
                                        case None => Threw
                                        case Some(report) => Reported(report)
      ensures WellFormedSerialiser(stringify) ==> !r.Threw?
    {
      if queue == [] {
        return Idle;
      }
      var batch := queue;
      queue := [];
      match Summarize(time, batch, stringify, logFullPayload) {
        case None => r := Threw;
        case Some(report) => r := Reported(report);
      }
    }

    /** Starts the timer unless it runs already. */
    method Start(handle: nat)
      modifies this`intervalId
      ensures intervalId == if old(intervalId).Some? then old(intervalId) else Some(handle)
    {
      if intervalId.Some? {
        return;
      }
      intervalId := Some(handle);
    }

    /** Stops the timer if it runs. */
    method Stop()
      modifies this`intervalId
      ensures intervalId == None
    {
      if intervalId.Some? {
        intervalId := None;
      }
    }
  }
}
