/** `trackTypingSpeed` (content.js): per element, the time of the last
    keystroke and a rolling list of at most 40 intervals between keystrokes;
    whenever the list's length is a multiple of 10 the rounded mean interval
    is reported. */
module TypingCadence {
  import opened Js

  const MaxIntervals := 40
  const SignalEvery := 10

  /** A page element, compared by identity. */
  class Element {
  }

  datatype TypingState = TypingState(last: int, intervals: seq<int>)

  /** What a signal reports: `avgMsBetweenKeys` and `sampleCount`. */
  datatype Cadence = Cadence(avgMsBetweenKeys: int, sampleCount: nat)

  function Sum(xs: seq<int>): int
    decreases |xs|
  {
    if xs == [] then 0 else Sum(xs[..|xs| - 1]) + xs[|xs| - 1]
  }

  /** `Math.round(sum / len)`: the nearest integer, halves rounded up. */
  function RoundedMean(xs: seq<int>): (m: int)
    requires |xs| > 0
    ensures 2 * |xs| * m - |xs| <= 2 * Sum(xs) < 2 * |xs| * m + |xs|
  {
    var n := |xs|;
    var q := (2 * Sum(xs) + n) / (2 * n);
    assert 2 * n * q <= 2 * Sum(xs) + n < 2 * n * q + 2 * n;
    q
  }

  /** One keystroke at time `now` for an element whose state is `s` (None
      before its first keystroke). A zero `last` counts as missing, as
      `s.last || now` does, and gives a zero interval. */
  function Keystroke(s: Option<TypingState>, now: int): (r: (TypingState, Option<Cadence>))
    ensures r.0.last == now
    ensures s.None? ==> r.0.intervals == [] && r.1 == None
    ensures s.Some? ==>
      var n := |s.value.intervals|;
      && |r.0.intervals| == (if n >= MaxIntervals then n else n + 1)
      && r.0.intervals[|r.0.intervals| - 1] == now - (if s.value.last != 0 then s.value.last else now)
      && (r.1.Some? <==> |r.0.intervals| % SignalEvery == 0)
    ensures s.Some? ==>
      r.0.intervals ==
        (if |s.value.intervals| >= MaxIntervals then s.value.intervals[1..] else s.value.intervals) +
        [now - (if s.value.last != 0 then s.value.last else now)]
    ensures r.1.Some? ==> r.1.value.sampleCount == |r.0.intervals| && r.1.value.avgMsBetweenKeys == RoundedMean(r.0.intervals)
  {
    match s
    case None => (TypingState(now, []), None)
    case Some(st) =>
      var dt := now - (if st.last != 0 then st.last else now);
      var pushed := st.intervals + [dt];
      var kept := if |pushed| > MaxIntervals then pushed[1..] else pushed;
      (TypingState(now, kept),
       if |kept| % SignalEvery == 0 then Some(Cadence(RoundedMean(kept), |kept|)) else None)
  }

  class Tracker {
    /** `_typingMap`: the state of each element typed into. */
    var states: map<Element, TypingState>

    ghost predicate Valid()
      reads this
    {
      forall e :: e in states ==> |states[e].intervals| <= MaxIntervals
    }

    constructor ()
      ensures states == map[] && Valid()
    {
      states := map[];
    }

    /** A keystroke into `el` at `now`; `el == null` stands for a target
        that is not an element, which is ignored. */
    method Track(el: Element?, now: int) returns (signal: Option<Cadence>)
      requires Valid()
      modifies this
      ensures Valid()
      ensures el == null ==> states == old(states) && signal == None
      ensures el != null ==>
        var (st, sig) := Keystroke(if el in old(states) then Some(old(states)[el]) else None, now);
        states == old(states)[el := st] && signal == sig
    {
      if el == null {
        return None;
      }
      if el !in states {
        states := states[el := TypingState(now, [])];
        return None;
      }
      var s := states[el];
      var dt := now - (if s.last != 0 then s.last else now);
      var intervals := s.intervals + [dt];
      if |intervals| > MaxIntervals {
        intervals := intervals[1..];
      }
      states := states[el := TypingState(now, intervals)];
      if |intervals| % SignalEvery == 0 {
        signal := Some(Cadence(RoundedMean(intervals), |intervals|));
      } else {
        signal := None;
      }
    }
  }

  // ---------------------------------------------------------------------
  // Keystroke sequences

  /** The state and the number of signals after keystrokes at `times`. */
  function Run(s: Option<TypingState>, times: seq<int>): (Option<TypingState>, nat)
    decreases |times|
  {
    if times == [] then (s, 0)
    else
      var (p, n) := Run(s, times[..|times| - 1]);
      var (q, sig) := Keystroke(p, times[|times| - 1]);
      (Some(q), n + if sig.Some? then 1 else 0)
  }

  /** The gaps between consecutive times. */
  function Gaps(times: seq<int>): (g: seq<int>)
    ensures |g| == if |times| == 0 then 0 else |times| - 1
    decreases |times|
  {
    if |times| <= 1 then []
    else Gaps(times[..|times| - 1]) + [times[|times| - 1] - times[|times| - 2]]
  }

  /** The last n elements of g, or all of it. */
  function LastN(g: seq<int>, n: nat): seq<int>
  {
    if |g| > n then g[|g| - n..] else g
  }

  /** The signals that n pushed intervals produce: one at 10, 20 and 30, and
      one per interval from the 40th on. */
  function SignalCount(n: nat): nat
  {
    if n < MaxIntervals then n / SignalEvery else n - 36
  }

  /** Pushing onto the last 40 and dropping the oldest past 40 keeps the last
      40 of the longer list. */
  lemma LastNSnoc(g: seq<int>, d: int)
    ensures var pushed := LastN(g, MaxIntervals) + [d];
            (if |pushed| > MaxIntervals then pushed[1..] else pushed) == LastN(g + [d], MaxIntervals)
  {
    var pushed := LastN(g, MaxIntervals) + [d];
    if |g| > MaxIntervals {
      assert pushed[1..] == (g + [d])[|g| + 1 - MaxIntervals..];
    } else if |g| == MaxIntervals {
      assert pushed[1..] == (g + [d])[1..];
    }
  }

  /** One keystroke onto a state holding the last 40 gaps of g. */
  lemma KeystrokeOnto(g: seq<int>, last: int, t: int)
    requires last != 0
    ensures Keystroke(Some(TypingState(last, LastN(g, MaxIntervals))), t).0 ==
            TypingState(t, LastN(g + [t - last], MaxIntervals))
  {
    LastNSnoc(g, t - last);
  }

  lemma SignalCountStep(n: nat)
    requires n >= 1
    ensures SignalCount(n) == SignalCount(n - 1) + if (if n < MaxIntervals then n else MaxIntervals) % SignalEvery == 0 then 1 else 0
  {
  }

  /** Keystrokes at nonzero times into a fresh element: the first records no
      interval; afterwards the state holds the last keystroke's time and the
      last 40 gaps. */
  lemma {:induction false} RunFromScratch(times: seq<int>)
    requires |times| >= 1
    requires forall k :: 0 <= k < |times| ==> times[k] != 0
    ensures Run(None, times).0 == Some(TypingState(times[|times| - 1], LastN(Gaps(times), MaxIntervals)))
    decreases |times|
  {
    if |times| > 1 {
      var prefix := times[..|times| - 1];
      RunFromScratch(prefix);
      var t, last := times[|times| - 1], prefix[|prefix| - 1];
      var g := Gaps(prefix);
      assert last == times[|times| - 2];
      assert Gaps(times) == g + [t - last];
      KeystrokeOnto(g, last, t);
    }
  }

  /** Keystrokes at any times into a fresh element: n keystrokes push n - 1
      intervals, the list holds the last min(n - 1, 40) of them, and the
      signals number SignalCount(n - 1), whatever the times. */
  lemma {:induction false} SignalTally(times: seq<int>)
    requires |times| >= 1
    ensures Run(None, times).0.Some?
    ensures |Run(None, times).0.value.intervals| == if |times| - 1 < MaxIntervals then |times| - 1 else MaxIntervals
    ensures Run(None, times).1 == SignalCount(|times| - 1)
    decreases |times|
  {
    if |times| > 1 {
      SignalTally(times[..|times| - 1]);
      SignalCountStep(|times| - 1);
    }
  }

  /** Twenty-one keystrokes give two signals, at the 11th and the 21st. */
  lemma TwentyOneKeystrokes(times: seq<int>)
    requires |times| == 21
    ensures Run(None, times).1 == 2
  {
    SignalTally(times);
  }

  /** Once 40 intervals are held every keystroke signals, with sample count
      40, and the list stays at 40. */
  lemma FullListAlwaysSignals(s: TypingState, now: int)
    requires |s.intervals| == MaxIntervals
    ensures |Keystroke(Some(s), now).0.intervals| == MaxIntervals
    ensures Keystroke(Some(s), now).1.Some? && Keystroke(Some(s), now).1.value.sampleCount == MaxIntervals
  {
  }

  /** The list never grows past 40. */
  lemma StaysBounded(s: Option<TypingState>, now: int)
    requires s.Some? ==> |s.value.intervals| <= MaxIntervals
    ensures |Keystroke(s, now).0.intervals| <= MaxIntervals
  {
  }
}
