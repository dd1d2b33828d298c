# Browser event logger: verified model of its core

This repository is a browser extension that logs user activity. A content
script (`content.js`) runs in the page. It turns DOM events into JSON records,
tags them, and gathers them in a batcher. The batcher periodically serialises
and compresses its pending records: an LZW parse, then UTF-8, then base64. The
script also derives two signals: rage clicks, meaning several clicks close
together in space and time, and typing cadence, the mean gap between
keystrokes per element. A service worker (`background.js`) keeps a persistent
queue of records, capped at 5000, in one storage slot. It answers
`PING`/`ENQUEUE`/`GET_PENDING_COUNT`/`FLUSH_QUEUE`/`CLEAR_QUEUE` requests with
`{ok, ...}` replies.

The Dafny model follows the two scripts module by module:

- `js.dfy` (`Js`): the JavaScript values involved. The text the compressor
  works on is a sequence of UTF-16 code units (`Utf16`), so lone surrogates
  can be expressed there. It also holds JSON values, truthiness, and
  `Object.assign` over own entries. Strings inside JSON values (`JStr`),
  event names and message types are Dafny `string`s, whose characters are
  Unicode scalar values, so a payload string cannot carry a lone surrogate.
- `base64.dfy` (`Base64`): `btoa` (section 4 of RFC 4648), with a decoder
  proved to invert it.
- `utf8.dfy` (`Utf8`): `unescape(encodeURIComponent(s))`, which is exactly
  the UTF-8 encoding (RFC 3629) of `s` or a URIError on a lone surrogate. It
  comes with a decoder proved to invert it.
- `lzw.dfy` (`Lzw`): `lzwCompressToBase64`. The compression loop is written
  as a method and proved equal to a specification fold. It carries the
  dictionary invariant and a specification-only LZW decoder, and proves the
  round trip of the whole compressor.
- `event_registry.dfy` (`EventRegistry`): the deduplicating listener
  registry.
- `batching.dfy` (`Batching`): the `Batcher` (pending array and timer
  handle) and the batch summary that `flush` and the beforeunload drain share.
- `rage_click.dfy` (`RageClick`): the sliding click window.
- `typing_cadence.dfy` (`TypingCadence`): the per-element interval lists.
- `pipeline.dfy` (`Pipeline`): `logEvent`'s enqueue step, the beforeunload
  handler, the two detectors as wired to `logEvent`, and `stopAll`.
- `queue_store.dfy` (`QueueStore`): the background queue over its storage
  slot.
- `dispatcher.dfy` (`Dispatcher`): the request handler.

The clock (`Date.now()`, `new Date().toISOString()`), feature flags, page
facts (URL, window size, element tag/id/name), fresh handler ids
(`Math.random().toString(36).slice(2)`, so base-36 digits only) and the JSON serialiser (`safeStringify`) are parameters.
Timer handles are given to `start` by the caller.

The logger's intended behaviour, as its authors describe it outside this
code, differs from the code in a few places; the model follows the code:

- The compressor is meant never to raise, but it can throw. The one-unit
  input U+D800 makes both paths throw (`Lzw.LoneSurrogateThrows`). A lone
  surrogate does not always do so: when it ends up inside a longer phrase,
  the code stream can still encode, as for
  `[D800, DC00, D800, DC00, D800, DC00, D800]` (`Lzw.LateLoneSurrogatePasses`).
  The batcher only compresses the output of its serialiser, and
  `JSON.stringify` escapes lone surrogates, so with such a serialiser a flush
  never throws (`Batching.Batcher.Flush`, `Pipeline.HandleBeforeUnload`).
  The throw path is modelled for an arbitrary serialiser.
- The compressor is meant to round-trip, but does not for every input:
  - The empty string and U+0000 compress to the same text
    (`Lzw.EmptyInputCollides`). `dict.get("")` is `undefined`, and
    `String.fromCharCode(undefined)` gives U+0000.
  - The output does not say whether the fallback path was taken.
  - The model proves the round trip where it holds: nonempty Latin-1 input of
    at most 0xD800 − 256 code units, for which the code stream stays below the
    surrogate range (`Lzw.RoundTrip`).
- `detectRageClick`'s `if (!center) return` never fires. The newest click is
  never evicted (`RageClick.NewestIsCenter`).

## Model

| member | source | states |
|---|---|---|
| `Lzw.Compress` | content.js:101-124 | The result is base64 text (groups of four alphabet or `=` characters), and the call throws exactly when neither the code string nor the input encodes, that is when both hold a lone surrogate |
| `Lzw.LzwCompressToBase64` | content.js:101-124 | The loop (extend the phrase while the dictionary knows the longer one, else emit and record it under the next code) followed by `fromCharCode`, UTF-8 and base64 with its fallback returns exactly `Compress`, the result of the specification parse |
| `Lzw.FromCharCodes` | content.js:118 | One UTF-16 unit per code; codes below 2^16 are kept as they are |
| `Lzw.ParseIsLossless` | content.js:105-117 | For nonempty input, the emitted phrases concatenated in order are the input, there is one code per phrase, and every code fits its phrase: a one-unit phrase emits its char code, and a longer one emits the code of an earlier dictionary entry that spells it (so it was already a key when emitted) |
| `Lzw.DictionaryCodes` | content.js:106-116 | The final dictionary holds exactly the entries phrase k + first unit of phrase k+1, each under code 256 + k, one per emitted code except the last |
| `Lzw.CodeCount` | content.js:107-117 | The code stream (`Codes`) has at least one code, and no more codes than input code units (one code for empty input) |
| `Lzw.CodeBounds` | content.js:111-117 | Each code is a code unit of the input, or 256 plus the index of an entry recorded before it |
| `Lzw.CodesRoundTrip` | content.js:101-117 | An LZW decoder rebuilds any nonempty Latin-1 input from its code stream |
| `Lzw.RoundTrip` | content.js:101-120 | For nonempty Latin-1 input of at most 0xD800 − 256 units, the primary path succeeds, and base64-decoding, UTF-8-decoding and LZW-decoding its output gives the input back |
| `Lzw.Base64OfUtf8` | content.js:120-122 | `btoa(unescape(encodeURIComponent(t)))` succeeds exactly when t has no lone surrogate, and then gives base64 text |
| `Lzw.Fallback` | content.js:119-123 | When encoding the code string throws, the result is base64 of the UTF-8 of the input itself if it has no lone surrogate; otherwise the call throws |
| `Lzw.LoneSurrogateThrows` | content.js:118-123 | The one-unit input U+D800 makes both paths throw |
| `Lzw.LateLoneSurrogatePasses` | content.js:106-120 | An input ending in a lone high surrogate whose code stream is a surrogate pair, 256 and 258 compresses without throwing |
| `Lzw.EmptyInputCollides` | content.js:104-118 | `""` and `"\0"` both compress to `"AA=="` |
| `Utf8.EncodeSucceedsIffWellFormed` | content.js:120 | `encodeURIComponent` as bytes (`Utf8.Encode`) succeeds exactly on strings without lone surrogates |
| `Utf8.RoundTrip` | content.js:120 | The UTF-8 bytes of a string without lone surrogates decode back to it |
| `Base64.EncodeLength` | content.js:120 | `btoa` output (`Base64.Encode`) is 4 characters per started group of 3 bytes |
| `Base64.EncodeAlphabet` | content.js:120 | `btoa` output uses only the base64 alphabet and `=` |
| `Base64.RoundTrip` | content.js:120 | Decoding `btoa`'s output gives back the bytes |
| `EventRegistry.KeyInjective` | content.js:133-134 | For any event names, the key `Key` builds, `evName::id`, determines the event name and the base-36 handler id, in both directions, so a handler is refused only when it is already bound to that event |
| `EventRegistry.LongerNameDiffers` | content.js:133 | A key never equals a key built from a longer event name, because a handler id holds no ':' |
| `EventRegistry.Registry.constructor` | content.js:131 | The registry starts with no bindings |
| `EventRegistry.Registry.Add` | content.js:132-142 | An id-less handler is stamped with the fresh id. If the (event, id) key is already bound, the call returns false and leaves the map unchanged, whatever the target; otherwise the binding is recorded under that key and the call returns true |
| `EventRegistry.Registry.RemoveAll` | content.js:143-148 | The binding map is empty afterwards, so a second call changes nothing |
| `Batching.BatchRecord` | content.js:169 | The serialised object has exactly the keys `time` and `batch`, and `batch` is the taken records |
| `Batching.Summarize` | content.js:168-177 | A report exists exactly when the compressor does not throw on the serialised batch, which needs a lone surrogate in it. It carries the time, counts the batch, gives the serialised length, always gives the length of the compressor's output, and carries that output itself (base64 text) exactly when the full payload is asked for |
| `Batching.SummaryRecoversBatch` | content.js:169-177 | A full report's `compressed` decompresses to the serialised batch, given Latin-1 text of bounded length |
| `Batching.Batcher.constructor` | content.js:153-196 | The batcher starts with nothing pending and its timer running |
| `Batching.Batcher.Enqueue` | content.js:157-164 | With batching on the record is appended in call order; off, the pending array is unchanged |
| `Batching.Batcher.Flush` | content.js:166-180 | With nothing pending the result is null and the state is unchanged. Otherwise nothing is pending afterwards, and the report covers all records pending before, in order. When the compressor throws, the records are already gone; with a serialiser that never emits a lone surrogate it never throws |
| `Batching.Batcher.Start` | content.js:182-188 | Starting while running is a no-op; otherwise the timer handle is set |
| `Batching.Batcher.Stop` | content.js:189-194 | Afterwards no timer runs; stopping while stopped is a no-op |
| `RageClick.Evict` | content.js:536 | Only the stale clicks at the front (more than 600 ms old, strictly) are dropped, the first kept click is fresh, and a fresh last click is always kept |
| `RageClick.Near` | content.js:539-542 | Every kept click is within 25 px (inclusive) of the center, and no more clicks are kept than the window holds |
| `RageClick.NearMembers` | content.js:539-542 | Exactly the clicks within 25 px (inclusive) of the center are kept |
| `RageClick.NearCount` | content.js:539-546 | Every copy of a close click is kept and no copy of a far one, so the signal's count counts repeated clicks one by one |
| `RageClick.Observe` | content.js:535-546 | Without a signal the window ends with the new click; with one, the window is empty and the signal reports the new click's position and at least 3 nearby clicks |
| `RageClick.Detector.constructor` | content.js:531 | The click window starts empty |
| `RageClick.Detector.Detect` | content.js:532-547 | The shift loop leaves the window that `Observe` describes, and the method returns its signal |
| `RageClick.NewestIsCenter` | content.js:537-538 | The window after eviction ends with the new click, which is the center and counts as near itself |
| `RageClick.BoundaryKept` | content.js:536 | A click exactly 600 ms old is not evicted |
| `RageClick.EvictKeepsFresh` | content.js:536 | For time-ordered clicks, eviction keeps exactly the clicks that are not stale |
| `RageClick.SignalExactly` | content.js:535-546 | For time-ordered clicks, a signal fires exactly when at least 3 fresh clicks lie within 25 px of the newest. It reports that count and the newest click's position and empties the window; otherwise the window is the fresh clicks |
| `RageClick.StaysOrdered` | content.js:535-536 | The window stays time-ordered when clicks arrive in time order |
| `RageClick.FirstObservation` | content.js:535-546 | A click into an empty window never signals and leaves the window holding just that click, so right after a signal one more close click does not signal again |
| `RageClick.ThreeClickScenario` | content.js:532-546 | Clicks at 0, 200 and 400 ms within 25 px: the third signals with count 3 and clears the window |
| `TypingCadence.RoundedMean` | content.js:563-564 | The reported mean is the nearest integer to sum/len, with halves rounded up |
| `TypingCadence.Keystroke` | content.js:555-565 | The state's time becomes now. A first keystroke records no interval and no signal. A later one appends the new interval `now - (last or now)` to the old list, dropping the oldest once 40 are held, and signals exactly when the length is a multiple of 10, with the rounded mean and the length |
| `TypingCadence.Tracker.constructor` | content.js:550 | No element has a state yet |
| `TypingCadence.Tracker.Track` | content.js:551-567 | A keystroke on a non-element is ignored. Otherwise the element's state becomes what `Keystroke` gives: the first keystroke records no interval; later ones push `now - last`, drop the oldest past 40, and signal when the length is a multiple of 10. Every list stays at most 40 long |
| `TypingCadence.RunFromScratch` | content.js:555-562 | After keystrokes at nonzero times, the element holds the last time and the last 40 gaps |
| `TypingCadence.SignalTally` | content.js:555-565 | After n keystrokes at any times the list holds min(n − 1, 40) intervals, and the signal count is (n − 1)/10 below 40 pushed intervals and n − 37 from 40 on |
| `TypingCadence.TwentyOneKeystrokes` | content.js:559-562 | 21 keystrokes at any times give 2 signals |
| `TypingCadence.FullListAlwaysSignals` | content.js:559-564 | Once 40 intervals are held, every keystroke signals with sample count 40 |
| `TypingCadence.StaysBounded` | content.js:561 | The interval list never exceeds 40 |
| `QueueStore.Capped` | background.js:21 | The capped queue is the newest min(n, 5000) records in order |
| `QueueStore.CappedSnoc` | background.js:21-35 | Capping after each push keeps the same records as capping once |
| `QueueStore.PushAll` | background.js:30-35 | After at least one enqueue the stored queue holds at most 5000 records |
| `QueueStore.PushAllKeepsNewest` | background.js:30-35 | Enqueueing items one by one leaves the newest 5000 of old queue ++ items |
| `QueueStore.Store.constructor` | background.js:10-11 | Nothing is stored yet, which reads as the empty queue |
| `QueueStore.Store.GetQueue` | background.js:8-15 | Returns the stored array, or [] when the slot holds no array |
| `QueueStore.Store.SetQueue` | background.js:18-27 | Stores the newest 5000 records of the argument, or [] for a non-array |
| `QueueStore.Store.EnqueueItem` | background.js:30-35 | Stores old ++ [item] capped, and returns old length + 1, counted before the cap (5001 on a full queue) |
| `QueueStore.Store.FlushQueue` | background.js:38-45 | Returns every stored record in order and their count. With nothing stored it writes nothing; otherwise the store is empty afterwards |
| `QueueStore.Store.GetCount` | background.js:48-51 | Returns the stored length and changes nothing |
| `QueueStore.Store.ClearQueue` | background.js:54-57 | Stores the empty queue and returns true |
| `Dispatcher.Classify` | background.js:80-116 | A message is invalid exactly when it is not an object with a string `type`. Otherwise each of the five types maps to its own request and exactly the other types are unknown, keeping their type; an ENQUEUE carries the payload, or null when absent |
| `Dispatcher.Stamped` | background.js:92 | The stored record has `_ts`, equal to the time unless the payload sets it, plus every own entry of a truthy payload, whose keys win |
| `Dispatcher.Sample` | background.js:105 | The sample is the first min(20, n) flushed records |
| `Dispatcher.ReplyObject` | background.js:81-116 | `ok` is false exactly for errors, and an error reply is `{ok:false, error}` |
| `Dispatcher.Serve` | background.js:85-117 | A request gets an error reply exactly when it is invalid or unknown; only ENQUEUE, FLUSH_QUEUE and CLEAR_QUEUE change the slot; and a store within the cap stays within it |
| `Dispatcher.Dispatch` | background.js:77-126 | Handling a message changes the store and replies as `Serve` does for its classified request |
| `Dispatcher.ErrorsExactly` | background.js:80-116 | `invalid_message` exactly for a message without a string type, `unknown_type` exactly for an unknown type, and an error leaves the store unchanged |
| `Dispatcher.FlushReply` | background.js:102-106 | FLUSH_QUEUE replies with n and the first min(20, n) stored records, and leaves the store empty |
| `Dispatcher.EnqueueAllKeepsNewest` | background.js:90-94 | After ENQUEUE requests, each stamped with its own time, the store holds the newest 5000 of old records ++ new stamped records |
| `Dispatcher.FiveThousandTen` | background.js:18-35 | From empty, 5010 ENQUEUEs at any times leave the last 5000 records in order, and the count reply is 5000 |
| `Dispatcher.TwentyFiveThenFlush` | background.js:90-106 | From empty, 25 ENQUEUEs at any times and a flush reply with flushed 25 and the first 20 records |
| `Pipeline.Tagged` | content.js:222 | The queued record is the payload's own entries over `_consoleTag: tag`; a payload's own `_consoleTag` wins |
| `Pipeline.LogEvent` | content.js:203-223 | The tagged record is appended to the batcher when batching is on |
| `Pipeline.HandleBeforeUnload` | content.js:472-481 | With batching on and records pending, all of them are taken and summarised without payload. Then the unload record (`PageRecord`: time and page URL) is logged, so with batching on the queue ends as exactly that record. If the compressor throws, nothing is logged and the queue is empty |
| `Pipeline.DetectRageClick` | content.js:532-547 | When enabled, the window and signal follow `Observe`, and a signal appends exactly one rage-click record (`RageRecord`: time, URL, center, count, window size) |
| `Pipeline.TrackTypingSpeed` | content.js:551-567 | When enabled, the element's state and the signal follow `Keystroke`, and a signal appends exactly one typing record (`TypingRecord`: time, URL, target tag/id/name with empty id or name as null, rounded mean, sample count) |
| `Pipeline.StopAll` | content.js:615-619 | No binding is left and the batch timer is stopped |

## Left out

- Console output (`console.log`/`warn`) and `forwardToBackground` are left
  out. So is `logEvent`'s `chrome.runtime.sendMessage` (content.js:46-59,
  204-219): these are I/O with no state in the model.
- The DOM listener lists are not modelled. `addEventListener` and
  `removeEventListener` are effects on the page, and their failures are
  swallowed, so the model keeps only the registry's own map.
- `safeStringify` is a parameter: it serialises arbitrary objects with cycle
  detection.
- `cssPath`, the per-event DOM record producers, hover bookkeeping, the
  scroll/resize debounces and mouse sampling are outside the modelled core.
- Timers are left out: `setInterval`/`clearInterval` calls and the interval
  callback itself. The callback is `flush(true)` guarded by a non-empty
  queue, which `Batching.Batcher.Flush` already covers.
- Floating point is not modelled:
  - Coordinates and times are integers.
  - The rage-click distance compares squared lengths. This agrees with
    `Math.sqrt` for integers.
  - `Math.round` of the mean is modelled exactly over the integers.
- `chrome.storage.local` is modelled as one field, and each request is
  served atomically. The lost update between interleaved asynchronous
  handlers is concurrency and is not modelled.
- The dispatcher's `catch` branch (`{ok:false, error:String(err)}`) is left
  out: no modelled step throws, since storage reads and writes always succeed
  in the model.
- The logging-only `onMessage` listener, window namespace installation,
  `setFeature` and `getPendingBatchCount` are plumbing around the modelled
  state.
- `src/modules/bridge.js` is not part of this model. It is a thin wrapper
  over `chrome.runtime.sendMessage`.
- The clock reads that share one `time` parameter in the model:
  - In a flush, the JSON and report timestamps. The source calls
    `new Date().toISOString()` twice there (content.js:169, 172).
  - In the beforeunload handler, the drain's JSON, its report and the
    `[BeforeUnload]` record. The source reads the clock three times there
    (content.js:476, 478, 480).
- Batching.Batcher.Flush: `Json -> Utf16` stands for `safeStringify`. Its
  cycle and unserialisable-value handling is not modelled.
- Lzw.RoundTrip: stated only for nonempty Latin-1 input of bounded length.
  Beyond that, the code stream loses information: codes at or above 256
  collide with characters, `fromCharCode` truncates codes past 0xFFFF, and
  surrogate-range codes trigger the fallback, whose output is not marked.
- TypingCadence.RunFromScratch: the closed form of the state is stated for
  nonzero keystroke times. A zero `last` is falsy in `s.last || now` and
  gives a zero interval, which `Keystroke` models but the closed form does
  not cover. The signal count (`TypingCadence.SignalTally`) holds for any
  times.
- RageClick.SignalExactly: stated for clicks in time order. With clocks
  going backwards, eviction stops at the first fresh click and keeps later
  stale ones, which `Evict` models.
