/** `detectRageClick` (content.js): a time-ordered window of recent clicks.
    Each click joins the window, clicks older than the threshold are evicted
    from the front, and when enough of the remaining clicks lie near the
    newest one a rage click is signalled and the window is emptied. Distances
    use integer coordinates and compare squared lengths, which for integers
    agrees with `Math.sqrt(dx*dx + dy*dy) <= 25`. */
module RageClick {
  import opened Js

  const ThresholdMs := 600
  const Required := 3
  const RadiusPx := 25

  datatype Click = Click(x: int, y: int, t: int)

  /** What a signal reports: the newest click's position and the number of
      nearby clicks. */
  datatype Signal = Signal(x: int, y: int, count: nat)

  predicate Stale(c: Click, now: int)
  {
    now - c.t > ThresholdMs
  }

  predicate Close(c: Click, center: Click)
  {
    (c.x - center.x) * (c.x - center.x) + (c.y - center.y) * (c.y - center.y) <= RadiusPx * RadiusPx
  }

  /** The window after eviction: the stale clicks at its front are dropped,
      and nothing else. */
  function Evict(w: seq<Click>, now: int): (r: seq<Click>)
    ensures |r| <= |w| && r == w[|w| - |r|..]
    ensures forall k :: 0 <= k < |w| - |r| ==> Stale(w[k], now)
    ensures |r| > 0 ==> !Stale(r[0], now)
    ensures |w| > 0 && !Stale(w[|w| - 1], now) ==> |r| > 0
    decreases |w|
  {
    if |w| > 0 && Stale(w[0], now) then Evict(w[1..], now) else w
  }

  /** The clicks of w near `center`, in order. */
  function Near(w: seq<Click>, center: Click): (r: seq<Click>)
    ensures |r| <= |w|
    ensures forall k :: 0 <= k < |r| ==> Close(r[k], center)
    decreases |w|
  {
    if w == [] then []
    else (if Close(w[0], center) then [w[0]] else []) + Near(w[1..], center)
  }

  /** The clicks `Near` keeps are exactly the clicks of w close to `center`. */
  lemma {:induction false} NearMembers(w: seq<Click>, center: Click)
    ensures forall c :: c in Near(w, center) <==> c in w && Close(c, center)
    decreases |w|
  {
    if w != [] {
      NearMembers(w[1..], center);
      assert w == [w[0]] + w[1..];
    }
  }

  /** `Near` keeps every copy of a close click and no copy of a far one, so
      the signal's count counts repeated clicks at one spot one by one. */
  lemma {:induction false} NearCount(w: seq<Click>, center: Click, c: Click)
    ensures multiset(Near(w, center))[c] == if Close(c, center) then multiset(w)[c] else 0
    decreases |w|
  {
    if w != [] {
      NearCount(w[1..], center, c);
      assert w == [w[0]] + w[1..];
      assert multiset(w) == multiset([w[0]]) + multiset(w[1..]);
    }
  }

  /** One click: the new window and the signal, if any. */
  function Observe(w: seq<Click>, c: Click): (r: (seq<Click>, Option<Signal>))
    ensures r.1.None? ==> |r.0| >= 1 && r.0[|r.0| - 1] == c
    ensures r.1.Some? ==> r.0 == [] && r.1.value.x == c.x && r.1.value.y == c.y && r.1.value.count >= Required
  {
    NewestIsCenter(w, c);
    var win := Evict(w + [c], c.t);
    var center := win[|win| - 1];
    var nearby := Near(win, center);
    if |nearby| >= Required then ([], Some(Signal(center.x, center.y, |nearby|)))
    else (win, None)
  }

  class Detector {
    /** `_recentClicks`, oldest first. */
    var recentClicks: seq<Click>

    constructor ()
      ensures recentClicks == []
    {
      recentClicks := [];
    }

    /** Records a click at (x, y) at time `now` and reports a rage click. */
    method Detect(x: int, y: int, now: int) returns (signal: Option<Signal>)
      modifies this
      ensures recentClicks == Observe(old(recentClicks), Click(x, y, now)).0
      ensures signal == Observe(old(recentClicks), Click(x, y, now)).1
    {
      var c := Click(x, y, now);
      NewestIsCenter(recentClicks, c);
      recentClicks := recentClicks + [c];
      ghost var win := Evict(recentClicks, now);
      while |recentClicks| > 0 && now - recentClicks[0].t > ThresholdMs
        invariant Evict(recentClicks, now) == win
        decreases |recentClicks|
      {
        recentClicks := recentClicks[1..];
      }
      assert recentClicks == win;
      var center := recentClicks[|recentClicks| - 1];
      var nearby := Near(recentClicks, center);
      if |nearby| >= Required {
        signal := Some(Signal(center.x, center.y, |nearby|));
        recentClicks := [];
      } else {
        signal := None;
      }
    }
  }

  // ---------------------------------------------------------------------
  // Properties

  /** The newest click survives eviction, sits at the end of the window and
      is the center, so the `!center` guard never fires and the center is
      always counted as near itself. */
  lemma NewestIsCenter(w: seq<Click>, c: Click)
    ensures var win := Evict(w + [c], c.t);
            |win| > 0 && win[|win| - 1] == c && c in Near(win, c)
  {
    var s := w + [c];
    var win := Evict(s, c.t);
    assert s[|s| - 1] == c;
    assert win[|win| - 1] == s[|s| - 1];
    NearMembers(win, c);
  }

  /** A click exactly at the threshold's age is kept: the comparison is strict. */
  lemma BoundaryKept(w: seq<Click>, c: Click)
    requires |w| > 0 && c.t - w[0].t == ThresholdMs
    ensures Evict(w, c.t) == w
  {
  }

  /** Clicks in time order. */
  ghost predicate Ordered(w: seq<Click>)
  {
    forall i, j :: 0 <= i < j < |w| ==> w[i].t <= w[j].t
  }

  /** The clicks of w that are not stale, in order. */
  function Fresh(w: seq<Click>, now: int): seq<Click>
    decreases |w|
  {
    if w == [] then []
    else (if Stale(w[0], now) then [] else [w[0]]) + Fresh(w[1..], now)
  }

  lemma {:induction false} FreshAll(w: seq<Click>, now: int)
    requires forall k :: 0 <= k < |w| ==> !Stale(w[k], now)
    ensures Fresh(w, now) == w
    decreases |w|
  {
    if w != [] {
      FreshAll(w[1..], now);
    }
  }

  /** For clicks in time order, eviction keeps exactly the clicks that are
      not stale. */
  lemma {:induction false} EvictKeepsFresh(w: seq<Click>, now: int)
    requires Ordered(w)
    ensures Evict(w, now) == Fresh(w, now)
    decreases |w|
  {
    if w != [] {
      if Stale(w[0], now) {
        EvictKeepsFresh(w[1..], now);
      } else {
        forall k | 0 <= k < |w|
          ensures !Stale(w[k], now)
        {
          assert w[0].t <= w[k].t || k == 0;
        }
        FreshAll(w, now);
      }
    }
  }

  /** For clicks in time order, a rage click is signalled exactly when at
      least three clicks are at most 600 ms old and within 25 px of the
      newest, and the window is empty afterwards; otherwise the window is
      the fresh clicks. */
  lemma SignalExactly(w: seq<Click>, c: Click)
    requires Ordered(w + [c])
    ensures Observe(w, c) ==
      var nearby := Near(Fresh(w + [c], c.t), c);
      if |nearby| >= Required then ([], Some(Signal(c.x, c.y, |nearby|)))
      else (Fresh(w + [c], c.t), None)
  {
    var s := w + [c];
    NewestIsCenter(w, c);
    EvictKeepsFresh(s, c.t);
    var win := Evict(s, c.t);
    assert win == Fresh(s, c.t);
    assert win[|win| - 1] == c;
  }

  /** A window kept in time order stays in time order when clicks arrive in
      time order. */
  lemma StaysOrdered(w: seq<Click>, c: Click)
    requires Ordered(w + [c])
    ensures Ordered(Observe(w, c).0)
  {
    var s := w + [c];
    var win := Evict(s, c.t);
    SuffixOrdered(s, |s| - |win|);
  }

  lemma SuffixOrdered(s: seq<Click>, k: nat)
    requires Ordered(s) && k <= |s|
    ensures Ordered(s[k..])
  {
    var t := s[k..];
    forall i, j | 0 <= i < j < |t|
      ensures t[i].t <= t[j].t
    {
      assert t[i] == s[k + i] && t[j] == s[k + j];
    }
  }

  /** Three clicks within 600 ms and 25 px: the first two only fill the
      window, the third signals with count 3 and empties it. */
  lemma ThreeClickScenario()
    ensures Observe([], Click(100, 100, 0)) == ([Click(100, 100, 0)], None)
    ensures Observe([Click(100, 100, 0)], Click(110, 100, 200)) ==
            ([Click(100, 100, 0), Click(110, 100, 200)], None)
    ensures Observe([Click(100, 100, 0), Click(110, 100, 200)], Click(100, 110, 400)) ==
            ([], Some(Signal(100, 110, 3)))
  {
    FirstObservation(Click(100, 100, 0));
    SecondClick();
    ThirdClick();
  }

  /** A click into an empty window never signals on its own: it starts the
      window. So after a signal, one more close click does not signal again. */
  lemma FirstObservation(c: Click)
    ensures Observe([], c) == ([c], None)
  {
    var w0 := [] + [c];
    assert w0 == [c];
    assert Evict(w0, c.t) == w0;
    assert Near(w0[1..], c) == [];
    assert |Near(w0, c)| == 1;
  }

  lemma SecondClick()
    ensures Observe([Click(100, 100, 0)], Click(110, 100, 200)) ==
            ([Click(100, 100, 0), Click(110, 100, 200)], None)
  {
    var w1 := [Click(100, 100, 0)] + [Click(110, 100, 200)];
    assert Evict(w1, 200) == w1;
    assert Near(w1[2..], Click(110, 100, 200)) == [];
    assert Near(w1[1..], Click(110, 100, 200)) == [w1[1]];
    assert Near(w1, Click(110, 100, 200)) == w1;
    assert w1[|w1| - 1] == Click(110, 100, 200);
    assert |Near(w1, Click(110, 100, 200))| < Required;
    assert w1 == [Click(100, 100, 0), Click(110, 100, 200)];
  }

  lemma ThirdClick()
    ensures Observe([Click(100, 100, 0), Click(110, 100, 200)], Click(100, 110, 400)) ==
            ([], Some(Signal(100, 110, 3)))
  {
    var w2 := [Click(100, 100, 0), Click(110, 100, 200)] + [Click(100, 110, 400)];
    var center := Click(100, 110, 400);
    assert Evict(w2, 400) == w2;
    assert Near(w2[3..], center) == [];
    assert Near(w2[2..], center) == [w2[2]];
    assert Near(w2[1..], center) == [w2[1], w2[2]];
    assert Near(w2, center) == w2;
  }
}
