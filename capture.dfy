/**
 * The sliding-window persistence variant of the loop (src/vision/capture.py):
 * a deque of the times at which a cat was seen inside the region of
 * interest, pruned from the front, firing when its span reaches the window.
 */
module Capture {

  /** The window after this frame's sighting, if any, is appended. */
  function Appended(w: seq<real>, inRoi: bool, now: real): (r: seq<real>)
    ensures inRoi ==> |r| == |w| + 1 && r[..|w|] == w && r[|w|] == now
    ensures !inRoi ==> r == w
  {
    if inRoi then w + [now] else w
  }

  /**
   * How many entries the prune drops: the length of the longest prefix of
   * entries each more than `span` seconds older than now. Every dropped entry
   * is stale and the first kept one is not.
   */
  function StaleCount(w: seq<real>, now: real, span: real): (k: nat)
    ensures k <= |w|
    ensures forall i | 0 <= i < k :: now - w[i] > span
    ensures k < |w| ==> now - w[k] <= span
  {
    if |w| > 0 && now - w[0] > span then 1 + StaleCount(w[1..], now, span) else 0
  }

  /** The window after the prune: the suffix left once the stale front entries are popped. */
  function Prune(w: seq<real>, now: real, span: real): seq<real>
  {
    w[StaleCount(w, now, span)..]
  }

  /** The event condition: a non-empty window whose last and first entries are at least span apart. */
  predicate ValidEvent(w: seq<real>, span: real)
  {
    |w| > 0 && w[|w| - 1] - w[0] >= span
  }

  /** One frame of the window as written: append, prune, test, and clear on an event. */
  function WindowStep(w: seq<real>, inRoi: bool, now: real, span: real): (seq<real>, bool)
  {
    var pruned := Prune(Appended(w, inRoi, now), now, span);
    if ValidEvent(pruned, span) then ([], true) else (pruned, false)
  }

  /**
   * The shape of one frame as written: the event is the event condition on
   * the pruned window and leaves the window empty; otherwise the window is
   * what survives the prune, a suffix of the appended window whose front
   * entry is within span of now.
   */
  lemma WindowStepShape(w: seq<real>, inRoi: bool, now: real, span: real)
    ensures var (r, fired) := WindowStep(w, inRoi, now, span);
      (fired <==> ValidEvent(Prune(Appended(w, inRoi, now), now, span), span)) &&
      (fired ==> r == []) &&
      (!fired ==> IsSuffix(r, Appended(w, inRoi, now)) && (|r| > 0 ==> now - r[0] <= span))
  {
    var a := Appended(w, inRoi, now);
    var k := StaleCount(a, now, span);
    assert a[k..] == a[|a| - |a[k..]|..];
  }

  /** Entries in non-decreasing order. */
  predicate Sorted(w: seq<real>)
  {
    forall a, b | 0 <= a <= b < |w| :: w[a] <= w[b]
  }

  /** No entry lies after now. */
  predicate NotAfter(w: seq<real>, now: real)
  {
    forall i | 0 <= i < |w| :: w[i] <= now
  }

  /** In a sorted window every survivor of the prune, not only the front, is within span of now. */
  lemma PrunedAllFresh(w: seq<real>, now: real, span: real)
    requires Sorted(w)
    ensures forall i | 0 <= i < |Prune(w, now, span)| :: now - Prune(w, now, span)[i] <= span
  {
    var r := Prune(w, now, span);
    if |r| > 0 {
      forall i | 0 <= i < |r| ensures now - r[i] <= span {
        assert r[0] == w[|w| - |r|] && r[i] == w[|w| - |r| + i];
      }
    }
  }

  /** With a clock that does not run backwards, the window stays sorted and never holds a future time. */
  lemma StepKeepsSorted(w: seq<real>, inRoi: bool, now: real, span: real)
    requires Sorted(w) && NotAfter(w, now)
    ensures Sorted(WindowStep(w, inRoi, now, span).0)
    ensures NotAfter(WindowStep(w, inRoi, now, span).0, now)
  {
    var a := Appended(w, inRoi, now);
    AppendedSorted(w, inRoi, now);
    SuffixSorted(a, Prune(a, now, span), now);
  }

  /** Appending now to a sorted window with nothing after now keeps both properties. */
  lemma AppendedSorted(w: seq<real>, inRoi: bool, now: real)
    requires Sorted(w) && NotAfter(w, now)
    ensures Sorted(Appended(w, inRoi, now)) && NotAfter(Appended(w, inRoi, now), now)
  {
    var a := Appended(w, inRoi, now);
    forall x, y | 0 <= x <= y < |a| ensures a[x] <= a[y] {
      if y < |w| { assert a[x] == w[x] && a[y] == w[y]; }
    }
  }

  /** A suffix of a sorted window with nothing after now has both properties too. */
  lemma SuffixSorted(a: seq<real>, r: seq<real>, now: real)
    requires Sorted(a) && NotAfter(a, now)
    requires |r| <= |a| && r == a[|a| - |r|..]
    ensures Sorted(r) && NotAfter(r, now)
  {
    var d := |a| - |r|;
    assert forall i | 0 <= i < |r| :: r[i] == a[d + i];
  }

  /**
   * If no entry lies after now, the pruned window spans at most `span`
   * seconds, so the event condition can hold only when the span is exactly
   * `span`.
   */
  lemma FiresOnlyOnExactSpan(w: seq<real>, inRoi: bool, now: real, span: real)
    requires NotAfter(w, now)
    ensures var r := Prune(Appended(w, inRoi, now), now, span);
      |r| > 0 ==> r[|r| - 1] - r[0] <= span
    ensures var r := Prune(Appended(w, inRoi, now), now, span);
      ValidEvent(r, span) <==> |r| > 0 && r[|r| - 1] - r[0] == span
  {
    var a := Appended(w, inRoi, now);
    assert NotAfter(a, now);
    var r := Prune(a, now, span);
    if |r| > 0 {
      assert r[|r| - 1] == a[|a| - 1];
    }
  }

  /** One frame of the loop: whether the cat was in the region of interest, and the clock. */
  datatype Sighting = Sighting(inRoi: bool, now: real)

  /** The window after a sequence of frames, starting empty, as written. */
  function WindowAfter(frames: seq<Sighting>, span: real): seq<real>
  {
    if |frames| == 0 then []
    else
      var f := frames[|frames| - 1];
      WindowStep(WindowAfter(frames[..|frames| - 1], span), f.inRoi, f.now, span).0
  }

  /** Whether frame m raises an event, as written. */
  predicate WindowFiresAt(frames: seq<Sighting>, span: real, m: nat)
    requires m < |frames|
  {
    WindowStep(WindowAfter(frames[..m], span), frames[m].inRoi, frames[m].now, span).1
  }

  /** The clock never runs backwards over the frames. */
  predicate ClockNonDecreasing(frames: seq<Sighting>)
  {
    forall a, b | 0 <= a <= b < |frames| :: frames[a].now <= frames[b].now
  }

  /** The times of the frames in which the cat was in the region, in frame order. */
  function InRoiTimes(frames: seq<Sighting>): (t: seq<real>)
    ensures |t| <= |frames|
  {
    if |frames| == 0 then []
    else
      var f := frames[|frames| - 1];
      InRoiTimes(frames[..|frames| - 1]) + (if f.inRoi then [f.now] else [])
  }

  /** s ends with r. */
  predicate IsSuffix(r: seq<real>, s: seq<real>)
  {
    |r| <= |s| && r == s[|s| - |r|..]
  }

  /** Each in-region time is the clock of an in-region frame: j is that frame. */
  lemma {:induction false} InRoiTimeIsSighting(frames: seq<Sighting>, i: nat) returns (j: nat)
    requires i < |InRoiTimes(frames)|
    ensures j < |frames| && frames[j].inRoi && frames[j].now == InRoiTimes(frames)[i]
  {
    var n := |frames|;
    var pre := frames[..n - 1];
    if i < |InRoiTimes(pre)| {
      j := InRoiTimeIsSighting(pre, i);
      assert frames[j] == pre[j];
    } else {
      j := n - 1;
    }
  }

  /** With a clock that does not run backwards, the in-region times are sorted and none is after the latest frame. */
  lemma {:induction false} InRoiTimesSorted(frames: seq<Sighting>)
    requires ClockNonDecreasing(frames)
    ensures Sorted(InRoiTimes(frames))
    ensures |frames| > 0 ==> NotAfter(InRoiTimes(frames), frames[|frames| - 1].now)
  {
    if |frames| > 0 {
      var n := |frames|;
      var pre := frames[..n - 1];
      var f := frames[n - 1];
      assert ClockNonDecreasing(pre) by {
        assert forall a | 0 <= a < |pre| :: pre[a] == frames[a];
      }
      InRoiTimesSorted(pre);
      if n > 1 {
        assert pre[n - 2].now <= f.now;
      }
      AppendedSorted(InRoiTimes(pre), f.inRoi, f.now);
    }
  }

  /**
   * Between frames the window, as written, is a suffix of the in-region
   * times: appends go to the back, the prune pops from the front, and an
   * event empties it.
   */
  lemma {:induction false} WindowIsSuffix(frames: seq<Sighting>, span: real)
    ensures IsSuffix(WindowAfter(frames, span), InRoiTimes(frames))
  {
    if |frames| > 0 {
      var n := |frames|;
      var pre := frames[..n - 1];
      var f := frames[n - 1];
      WindowIsSuffix(pre, span);
      var w, t := WindowAfter(pre, span), InRoiTimes(pre);
      var a := Appended(w, f.inRoi, f.now);
      var t' := InRoiTimes(frames);
      assert t' == t + (if f.inRoi then [f.now] else []);
      StepSuffix(w, t, f.inRoi, f.now, span);
    }
  }

  lemma StepSuffix(w: seq<real>, t: seq<real>, inRoi: bool, now: real, span: real)
    requires IsSuffix(w, t)
    ensures IsSuffix(WindowStep(w, inRoi, now, span).0, t + (if inRoi then [now] else []))
  {
    var a := Appended(w, inRoi, now);
    var t' := t + (if inRoi then [now] else []);
    assert IsSuffix(a, t') by {
      if inRoi {
        assert t'[|t'| - |a|..] == t[|t| - |w|..] + [now];
      }
    }
    var k := StaleCount(a, now, span);
    assert a[k..] == t'[|t'| - |a| + k..];
  }

  /** Between frames the window, as written, never meets the event condition: it was cleared, or it was tested and failed. */
  lemma WindowAfterShort(frames: seq<Sighting>, span: real)
    ensures !ValidEvent(WindowAfter(frames, span), span)
  {
  }

  /**
   * One step, as written, fires only on an in-region frame whose clock is
   * exactly `span` after an entry of the window between frames, when that
   * window is sorted, holds nothing after now and fails the event
   * condition: k is that entry.
   */
  lemma StepFiresOnExactGap(w: seq<real>, inRoi: bool, now: real, span: real) returns (k: nat)
    requires Sorted(w) && NotAfter(w, now) && !ValidEvent(w, span)
    requires WindowStep(w, inRoi, now, span).1
    ensures inRoi
    ensures span != 0.0 ==> k < |w| && now - w[k] == span
  {
    if !inRoi {
      SuffixShort(w, StaleCount(w, now, span), span);
      assert false;
    }
    FiresOnlyOnExactSpan(w, true, now, span);
    var a := Appended(w, true, now);
    k := StaleCount(a, now, span);
    assert now - a[k] == span;
    if k < |w| {
      assert a[k] == w[k];
    }
  }

  /**
   * As written, frame m raises an event only if the cat is in the region in
   * it and was also seen there exactly `span` seconds earlier: sightings
   * more or less than the window apart never fire, however long they last.
   */
  lemma FiresOnlyOnExactGap(frames: seq<Sighting>, span: real, m: nat)
    requires ClockNonDecreasing(frames) && m < |frames| && WindowFiresAt(frames, span, m)
    ensures frames[m].inRoi
    ensures exists a | 0 <= a <= m :: frames[a].inRoi && frames[m].now - frames[a].now == span
  {
    var pre := frames[..m];
    RunPrefix(frames, m);
    var k := StepFires(pre, frames[m], span);
    if span == 0.0 {
      assert frames[m].now - frames[m].now == span;
    } else {
      var j := EarlierSighting(frames, span, m, k);
    }
  }

  /** The step lemma applied to the frame f that follows the frames pre of a run. */
  lemma StepFires(pre: seq<Sighting>, f: Sighting, span: real) returns (k: nat)
    requires ClockNonDecreasing(pre) && (|pre| > 0 ==> pre[|pre| - 1].now <= f.now)
    requires WindowStep(WindowAfter(pre, span), f.inRoi, f.now, span).1
    ensures f.inRoi
    ensures span != 0.0 ==> k < |WindowAfter(pre, span)| && f.now - WindowAfter(pre, span)[k] == span
  {
    WindowFacts(pre, span, f.now);
    k := StepFiresOnExactGap(WindowAfter(pre, span), f.inRoi, f.now, span);
  }

  /** The frames before frame m keep a clock that does not run backwards, and none is after frame m. */
  lemma RunPrefix(frames: seq<Sighting>, m: nat)
    requires ClockNonDecreasing(frames) && m < |frames|
    ensures ClockNonDecreasing(frames[..m])
    ensures m > 0 ==> frames[..m][m - 1].now <= frames[m].now
  {
    var pre := frames[..m];
    assert forall a | 0 <= a < |pre| :: pre[a] == frames[a];
  }

  /** Between frames of a run with a clock that does not run backwards, the window as written is sorted, not after the next clock reading, and fails the event condition. */
  lemma WindowFacts(frames: seq<Sighting>, span: real, now: real)
    requires ClockNonDecreasing(frames)
    requires |frames| > 0 ==> frames[|frames| - 1].now <= now
    ensures var w := WindowAfter(frames, span);
      Sorted(w) && NotAfter(w, now) && !ValidEvent(w, span)
  {
    var w, t := WindowAfter(frames, span), InRoiTimes(frames);
    InRoiTimesSorted(frames);
    WindowIsSuffix(frames, span);
    WindowAfterShort(frames, span);
    if |frames| > 0 {
      SuffixSorted(t, w, frames[|frames| - 1].now);
    }
  }

  /** The entry k of the window before frame m, exactly span before frame m, is the clock of an earlier in-region frame j. */
  lemma EarlierSighting(frames: seq<Sighting>, span: real, m: nat, k: nat) returns (j: nat)
    requires m < |frames| && k < |WindowAfter(frames[..m], span)|
    requires frames[m].now - WindowAfter(frames[..m], span)[k] == span
    ensures j < m && frames[j].inRoi && frames[m].now - frames[j].now == span
  {
    var pre := frames[..m];
    j := WindowEntrySighting(pre, span, k);
    assert pre[j] == frames[j];
  }

  /** Every entry of the window, as written, is the clock of an in-region frame: j is that frame. */
  lemma WindowEntrySighting(frames: seq<Sighting>, span: real, k: nat) returns (j: nat)
    requires k < |WindowAfter(frames, span)|
    ensures j < |frames| && frames[j].inRoi && frames[j].now == WindowAfter(frames, span)[k]
  {
    var i := WindowDrawn(frames, span, k);
    j := InRoiTimeIsSighting(frames, i);
  }

  /** Every entry of the window, as written, is one of the in-region times: i is its place among them. */
  lemma WindowDrawn(frames: seq<Sighting>, span: real, k: nat) returns (i: nat)
    requires k < |WindowAfter(frames, span)|
    ensures i < |InRoiTimes(frames)| && InRoiTimes(frames)[i] == WindowAfter(frames, span)[k]
  {
    WindowIsSuffix(frames, span);
    i := SuffixIndex(WindowAfter(frames, span), InRoiTimes(frames), k);
  }

  /** Entry k of a suffix r of s is entry i of s. */
  lemma SuffixIndex(r: seq<real>, s: seq<real>, k: nat) returns (i: nat)
    requires IsSuffix(r, s) && k < |r|
    ensures i < |s| && s[i] == r[k]
  {
    i := |s| - |r| + k;
  }

  /** Dropping front entries of a sorted window that fails the event condition cannot make it pass. */
  lemma SuffixShort(w: seq<real>, k: nat, span: real)
    requires Sorted(w) && !ValidEvent(w, span) && k <= |w|
    ensures !ValidEvent(w[k..], span)
  {
    if k < |w| {
      assert w[k..][0] == w[k] >= w[0];
    }
  }

  /**
   * As written, a cat seen in the region in every frame, one frame each 0.3
   * seconds, never raises an event with a 0.7 s window, however long it
   * stays: no two sightings are exactly 0.7 s apart. From the fourth frame on
   * it has been present for longer than the window.
   */
  lemma ContinuousPresenceNeverFires(frames: seq<Sighting>)
    requires forall k | 0 <= k < |frames| :: frames[k] == Sighting(true, 0.3 * k as real)
    ensures |frames| >= 4 ==> frames[|frames| - 1].now - frames[0].now >= 0.7
    ensures forall m | 0 <= m < |frames| :: !WindowFiresAt(frames, 0.7, m)
  {
    assert ClockNonDecreasing(frames) by {
      forall a, b | 0 <= a <= b < |frames| ensures frames[a].now <= frames[b].now {
        assert 0.3 * b as real - 0.3 * a as real == 0.3 * (b - a) as real;
      }
    }
    forall m | 0 <= m < |frames| ensures !WindowFiresAt(frames, 0.7, m) {
      if WindowFiresAt(frames, 0.7, m) {
        FiresOnlyOnExactGap(frames, 0.7, m);
        var a :| 0 <= a <= m && frames[a].inRoi && frames[m].now - frames[a].now == 0.7;
        NoSevenTenthsGap(m, a);
      }
    }
  }

  /** Two frames of a 0.3 s cadence are never 0.7 s apart. */
  lemma NoSevenTenthsGap(m: int, a: int)
    ensures 0.3 * m as real - 0.3 * a as real != 0.7
  {
    var d := m - a;
    assert 0.3 * m as real - 0.3 * a as real == 0.3 * d as real;
    if d <= 2 {
      assert 0.3 * d as real <= 0.6;
    } else {
      assert 0.3 * d as real >= 0.9;
    }
  }

  /**
   * The corrected frame: the event condition is tested on the window before
   * it is pruned, so the entry that completes the span is still there.
   */
  function CheckedWindowStep(w: seq<real>, inRoi: bool, now: real, span: real): (seq<real>, bool)
  {
    var a := Appended(w, inRoi, now);
    if ValidEvent(a, span) then ([], true) else (Prune(a, now, span), false)
  }

  /** The window after a sequence of frames, starting empty, with the corrected step. */
  function CheckedWindowAfter(frames: seq<Sighting>, span: real): seq<real>
  {
    if |frames| == 0 then []
    else
      var f := frames[|frames| - 1];
      CheckedWindowStep(CheckedWindowAfter(frames[..|frames| - 1], span), f.inRoi, f.now, span).0
  }

  /** Whether frame m raises an event, with the corrected step. */
  predicate CheckedFiresAt(frames: seq<Sighting>, span: real, m: nat)
    requires m < |frames|
  {
    CheckedWindowStep(CheckedWindowAfter(frames[..m], span), frames[m].inRoi, frames[m].now, span).1
  }

  /** Until the corrected window fires, a run of in-region frames keeps its first time at the front. */
  lemma {:induction false} CheckedKeepsFirst(frames: seq<Sighting>, span: real, n: nat)
    requires 1 <= n <= |frames|
    requires forall m | 0 <= m < n :: frames[m].inRoi && !CheckedFiresAt(frames, span, m)
    ensures var w := CheckedWindowAfter(frames[..n], span); |w| > 0 && w[0] == frames[0].now
  {
    assert frames[..n][..n - 1] == frames[..n - 1];
    var w := CheckedWindowAfter(frames[..n - 1], span);
    var f := frames[n - 1];
    if n > 1 {
      CheckedKeepsFirst(frames, span, n - 1);
    } else {
      assert w == [];
    }
    var a := Appended(w, true, f.now);
    assert a[0] == frames[0].now;
    assert !ValidEvent(a, span);
    assert Prune(a, f.now, span) == a;
  }

  /**
   * With the corrected step, a run that starts from an empty window and sees
   * the cat in the region on every frame raises an event by the frame whose
   * clock is at least the window after the first frame's.
   */
  lemma CheckedFiresOnPresence(frames: seq<Sighting>, span: real)
    requires |frames| > 0
    requires forall m | 0 <= m < |frames| :: frames[m].inRoi
    requires frames[|frames| - 1].now - frames[0].now >= span
    ensures exists m | 0 <= m < |frames| :: CheckedFiresAt(frames, span, m)
  {
    var k := |frames| - 1;
    if !(exists m | 0 <= m < k :: CheckedFiresAt(frames, span, m)) {
      var w := CheckedWindowAfter(frames[..k], span);
      if k > 0 {
        CheckedKeepsFirst(frames, span, k);
      } else {
        assert w == [];
      }
      var a := Appended(w, true, frames[k].now);
      assert a[0] == frames[0].now && a[|a| - 1] == frames[k].now;
      assert CheckedFiresAt(frames, span, k);
    }
  }

  /**
   * With the corrected step, the 0.3 s cadence of ContinuousPresenceNeverFires
   * raises an event once four frames, 0.9 s of presence, have been seen.
   */
  lemma CheckedFiresOnCadence(frames: seq<Sighting>)
    requires |frames| >= 4
    requires forall k | 0 <= k < |frames| :: frames[k] == Sighting(true, 0.3 * k as real)
    ensures exists m | 0 <= m < |frames| :: CheckedFiresAt(frames, 0.7, m)
  {
    var n := |frames| - 1;
    assert frames[n].now - frames[0].now == 0.3 * n as real;
    CheckedFiresOnPresence(frames, 0.7);
  }

  /** The deque of recent in-region sighting times (capture.py:21-22). */
  class PersistenceWindow {
    /** Seconds an entry is kept, and the span that raises an event. */
    const persistWindowS: real
    /** Sighting times, oldest first. */
    var window: seq<real>

    constructor (persistWindowS: real)
      ensures this.persistWindowS == persistWindowS && window == []
    {
      this.persistWindowS := persistWindowS;
      window := [];
    }

    /**
     * One frame (capture.py:41-53): append now if the cat is in the region,
     * pop stale entries from the front, and clear the window when its span
     * reaches persistWindowS. Returns whether an event is raised.
     */
    method Update(inRoi: bool, now: real) returns (validEvent: bool)
      modifies this
      ensures (window, validEvent) == WindowStep(old(window), inRoi, now, persistWindowS)
    {
      if inRoi {
        window := window + [now];
      }
      ghost var appended := window;
      ghost var popped := 0;
      while |window| > 0 && now - window[0] > persistWindowS
        invariant popped <= StaleCount(appended, now, persistWindowS)
        invariant window == appended[popped..]
        decreases |window|
      {
        window := window[1..];
        popped := popped + 1;
      }
      validEvent := |window| > 0 && window[|window| - 1] - window[0] >= persistWindowS;
      if validEvent {
        window := [];
      }
    }
  }
}
