/**
 * The detection loop (src/vision/pipeline.py): the FOURCC decoder, the
 * persistence debouncer that turns per-frame cat sightings into one event
 * per qualifying run, and the frame counter behind the FPS report.
 */
module Pipeline {
  import opened Wrappers
  import opened OnnxLoader
  import opened Postprocess

  // ---------------------------------------------------------------------------
  // fourcc_to_str (pipeline.py:9-14)

  /** A capture property as the camera reports it: a float, possibly not finite. */
  datatype PropValue = Finite(value: real) | NotANumber | Infinite

  /** Python's int() on a float: truncation, or an error for NaN and infinities. */
  function ToInt(v: PropValue): (r: Option<int>)
    ensures r.Some? <==> v.Finite?
    ensures r.Some? && v.value >= 0.0 ==> r.value as real <= v.value < r.value as real + 1.0
    ensures r.Some? && v.value < 0.0 ==> r.value as real - 1.0 < v.value <= r.value as real
  {
    match v
    case Finite(x) => Some(Truncate(x))
    case _ => None
  }

  /** 256 to the power i, for the four byte positions. */
  function ByteWeight(i: nat): (p: int)
    requires i < 4
    ensures p > 0
  {
    if i == 0 then 1 else if i == 1 then 0x100 else if i == 2 then 0x1_0000 else 0x100_0000
  }

  /** Byte i of n, counting from the least significant: (n >> 8i) & 0xFF on unbounded integers. */
  function ByteOf(n: int, i: nat): (b: int)
    requires i < 4
    ensures 0 <= b < 256
  {
    (n / ByteWeight(i)) % 256
  }

  /** The four-character code: byte i of the integer value as character i, or "????" when the value is not finite. */
  function FourccToStr(v: PropValue): (s: string)
    ensures |s| == 4
    ensures ToInt(v).None? ==> s == "????"
    ensures ToInt(v).Some? ==> forall i | 0 <= i < 4 :: s[i] as int == ByteOf(ToInt(v).value, i)
  {
    match ToInt(v)
    case None => "????"
    case Some(n) => seq(4, i requires 0 <= i < 4 => ByteOf(n, i) as char)
  }

  /** Reassembles a four-character code into the integer it was read from. */
  function FourccCode(s: string): int
    requires |s| == 4
  {
    s[0] as int + 0x100 * s[1] as int + 0x1_0000 * s[2] as int + 0x100_0000 * s[3] as int
  }

  /** The four characters are exactly the low 32 bits of the integer, least significant byte first. */
  lemma FourccLow32Bits(n: int)
    ensures FourccCode(FourccToStr(Finite(n as real))) == n % 0x1_0000_0000
  {
    var s := FourccToStr(Finite(n as real));
    assert Truncate(n as real) == n;
    assert forall i | 0 <= i < 4 :: s[i] as int == ByteOf(n, i);
    LowBytes(n);
  }

  /** An integer modulo 2^32 is the sum of its four low bytes at their weights. */
  lemma LowBytes(n: int)
    ensures n % 0x1_0000_0000 ==
      ByteOf(n, 0) + 0x100 * ByteOf(n, 1) + 0x1_0000 * ByteOf(n, 2) + 0x100_0000 * ByteOf(n, 3)
  {
    var q1, q2, q3 := n / 0x100, n / 0x1_0000, n / 0x100_0000;
    assert q2 == q1 / 0x100;
    assert q3 == q2 / 0x100;
    assert n % 0x1_0000_0000 == n % 0x100 + 0x100 * (q1 % 0x100) + 0x1_0000 * (q2 % 0x100) + 0x100_0000 * (q3 % 0x100);
  }

  /** A camera reporting the Motion-JPEG code gets the string "MJPG" back. */
  lemma FourccMjpg()
    ensures FourccToStr(Finite(1196444237.0)) == "MJPG"
  {
    var s := FourccToStr(Finite(1196444237.0));
    assert Truncate(1196444237.0) == 1196444237;
    assert s[0] == 'M' && s[1] == 'J' && s[2] == 'P' && s[3] == 'G';
  }

  // ---------------------------------------------------------------------------
  // The persistence debouncer (pipeline.py:81-101)

  /**
   * One processed frame: a sighting starts the run if none is active, and an
   * active run that has lasted persistence seconds fires and ends; a frame
   * without a cat ends the run. Returns the new run start and whether it fired.
   */
  function Debounce(since: Option<real>, saw: bool, now: real, persistence: real): (r: (Option<real>, bool))
    ensures r.1 ==> saw && r.0 == None
    ensures r.0.Some? ==> saw && !r.1 && r.0 == (if since.None? then Some(now) else since)
  {
    if saw then
      var start := if since.None? then now else since.value;
      if now - start >= persistence then (None, true) else (Some(start), false)
    else (None, false)
  }

  /** The debouncer's transitions: a miss clears, a first sighting starts, a continued short run is left alone, a long one fires and clears. */
  lemma DebounceTransitions(since: Option<real>, saw: bool, now: real, persistence: real)
    ensures !saw ==> Debounce(since, saw, now, persistence) == (None, false)
    ensures saw && since.None? && persistence > 0.0 ==> Debounce(since, saw, now, persistence) == (Some(now), false)
    ensures saw && since.Some? && now - since.value < persistence ==> Debounce(since, saw, now, persistence) == (since, false)
    ensures Debounce(since, saw, now, persistence).1 <==>
      saw && now - (if since.None? then now else since.value) >= persistence
    ensures Debounce(since, saw, now, persistence).1 ==> Debounce(since, saw, now, persistence).0 == None
  {
  }

  /** With a positive threshold a first sighting never fires; with a non-positive one it fires at once. */
  lemma FirstSighting(now: real, persistence: real)
    ensures Debounce(None, true, now, persistence).1 <==> persistence <= 0.0
  {
  }

  /** One loop iteration as the debouncer sees it: was the read ok, was a cat seen, and the clock. */
  datatype Obs = Obs(ok: bool, saw: bool, now: real)

  /** A failed read skips the iteration and leaves the state alone. */
  function Step(since: Option<real>, o: Obs, persistence: real): (r: (Option<real>, bool))
    ensures !o.ok ==> r == (since, false)
    ensures r.1 ==> o.ok && o.saw && r.0 == None
  {
    if o.ok then Debounce(since, o.saw, o.now, persistence) else (since, false)
  }

  /** The debouncer state after a sequence of iterations, starting from no active run. */
  function After(obs: seq<Obs>, persistence: real): Option<real>
  {
    if |obs| == 0 then None
    else Step(After(obs[..|obs| - 1], persistence), obs[|obs| - 1], persistence).0
  }

  /** Whether iteration m of the sequence fires an event. */
  predicate FiresAt(obs: seq<Obs>, persistence: real, m: nat)
    requires m < |obs|
  {
    Step(After(obs[..m], persistence), obs[m], persistence).1
  }

  /** Whether each iteration fires. */
  function Fires(obs: seq<Obs>, persistence: real): (f: seq<bool>)
    ensures |f| == |obs|
    ensures forall m | 0 <= m < |obs| :: f[m] == FiresAt(obs, persistence, m)
  {
    seq(|obs|, m requires 0 <= m < |obs| => FiresAt(obs, persistence, m))
  }

  /** After(obs[..n+1]) is one step from After(obs[..n]). */
  lemma AfterPrefix(obs: seq<Obs>, persistence: real, n: nat)
    requires n < |obs|
    ensures After(obs[..n + 1], persistence) == Step(After(obs[..n], persistence), obs[n], persistence).0
  {
    assert obs[..n + 1][..n] == obs[..n];
  }

  /**
   * An active run started at a processed sighting, and every processed
   * iteration since then saw a cat.
   */
  lemma {:induction false} ActiveRunWitness(obs: seq<Obs>, persistence: real)
    requires After(obs, persistence).Some?
    ensures exists j | 0 <= j < |obs| ::
      obs[j].ok && obs[j].saw && obs[j].now == After(obs, persistence).value &&
      forall m | j <= m < |obs| :: obs[m].ok ==> obs[m].saw
  {
    var n := |obs|;
    var pre := obs[..n - 1];
    var last := obs[n - 1];
    var t := After(obs, persistence).value;
    if !last.ok {
      assert After(pre, persistence) == After(obs, persistence);
      ActiveRunWitness(pre, persistence);
      var j :| 0 <= j < |pre| && pre[j].ok && pre[j].saw && pre[j].now == t &&
        forall m | j <= m < |pre| :: pre[m].ok ==> pre[m].saw;
      assert obs[j] == pre[j];
      assert forall m | j <= m < n :: obs[m].ok ==> obs[m].saw by {
        forall m | j <= m < n ensures obs[m].ok ==> obs[m].saw {
          if m < n - 1 { assert obs[m] == pre[m]; }
        }
      }
    } else {
      assert last.saw;
      if After(pre, persistence).None? {
        assert t == last.now;
        assert forall m | n - 1 <= m < n :: obs[m].ok ==> obs[m].saw;
      } else {
        assert t == After(pre, persistence).value;
        ActiveRunWitness(pre, persistence);
        var j :| 0 <= j < |pre| && pre[j].ok && pre[j].saw && pre[j].now == t &&
          forall m | j <= m < |pre| :: pre[m].ok ==> pre[m].saw;
        assert obs[j] == pre[j];
        assert forall m | j <= m < n :: obs[m].ok ==> obs[m].saw by {
          forall m | j <= m < n ensures obs[m].ok ==> obs[m].saw {
            if m < n - 1 { assert obs[m] == pre[m]; }
          }
        }
      }
    }
  }

  /**
   * An event is raised only after a cat has been seen in every processed
   * frame of a stretch lasting at least the persistence time.
   */
  lemma FiredMeansPersisted(obs: seq<Obs>, persistence: real, k: nat)
    requires k < |obs| && FiresAt(obs, persistence, k)
    ensures obs[k].ok && obs[k].saw
    ensures exists j | 0 <= j <= k ::
      obs[j].ok && obs[j].saw && obs[k].now - obs[j].now >= persistence &&
      forall m | j <= m <= k :: obs[m].ok ==> obs[m].saw
  {
    var pre := obs[..k];
    var since := After(pre, persistence);
    if since.Some? {
      ActiveRunWitness(pre, persistence);
      var j :| 0 <= j < |pre| && pre[j].ok && pre[j].saw && pre[j].now == since.value &&
        forall m | j <= m < |pre| :: pre[m].ok ==> pre[m].saw;
      assert obs[j] == pre[j];
      assert forall m | j <= m <= k :: obs[m].ok ==> obs[m].saw by {
        forall m | j <= m <= k ensures obs[m].ok ==> obs[m].saw {
          if m < k { assert obs[m] == pre[m]; }
        }
      }
    } else {
      assert forall m | k <= m <= k :: obs[m].ok ==> obs[m].saw;
    }
  }

  /** The clock never runs backwards over the sequence. */
  predicate NonDecreasing(obs: seq<Obs>)
  {
    forall a, b | 0 <= a <= b < |obs| :: obs[a].now <= obs[b].now
  }

  /** Until a stretch of sightings starting at j, failed reads allowed, has fired, its run started no later than obs[j]. */
  lemma {:induction false} RunStartsBy(obs: seq<Obs>, persistence: real, j: nat, i: nat)
    requires j <= i < |obs| && NonDecreasing(obs)
    requires obs[j].ok && obs[j].saw
    requires forall m | j <= m <= i :: obs[m].ok ==> obs[m].saw
    ensures (exists m | j <= m <= i :: FiresAt(obs, persistence, m)) ||
      (After(obs[..i + 1], persistence).Some? && After(obs[..i + 1], persistence).value <= obs[j].now)
  {
    AfterPrefix(obs, persistence, i);
    if i == j {
      var before := After(obs[..j], persistence);
      if before.Some? {
        ActiveRunWitness(obs[..j], persistence);
        var w :| 0 <= w < j && obs[..j][w].now == before.value;
        assert obs[..j][w] == obs[w];
        assert before.value <= obs[j].now;
      }
      if FiresAt(obs, persistence, j) {
        assert exists m | j <= m <= i :: FiresAt(obs, persistence, m);
      }
    } else {
      RunStartsBy(obs, persistence, j, i - 1);
      assert obs[..i] == obs[..(i - 1) + 1];
      if exists m | j <= m <= i - 1 :: FiresAt(obs, persistence, m) {
        var m :| j <= m <= i - 1 && FiresAt(obs, persistence, m);
        assert j <= m <= i;
      } else if FiresAt(obs, persistence, i) {
        assert exists m | j <= m <= i :: FiresAt(obs, persistence, m);
      }
    }
  }

  /**
   * A cat seen in every processed frame of a stretch that begins and ends
   * with a processed sighting and lasts at least the persistence time raises
   * an event within that stretch (the debouncer does not starve); failed
   * reads inside the stretch are skipped.
   */
  lemma PersistedFires(obs: seq<Obs>, persistence: real, j: nat, k: nat)
    requires j <= k < |obs| && NonDecreasing(obs)
    requires obs[j].ok && obs[j].saw && obs[k].ok && obs[k].saw
    requires forall m | j <= m <= k :: obs[m].ok ==> obs[m].saw
    requires obs[k].now - obs[j].now >= persistence
    ensures exists m | j <= m <= k :: FiresAt(obs, persistence, m)
  {
    if !(exists m | j <= m < k :: FiresAt(obs, persistence, m)) {
      if k == j {
        RunStartsBy(obs, persistence, j, j);
        var before := After(obs[..j], persistence);
        if before.Some? {
          ActiveRunWitness(obs[..j], persistence);
          var w :| 0 <= w < j && obs[..j][w].now == before.value;
          assert obs[..j][w] == obs[w];
        }
        assert FiresAt(obs, persistence, k);
      } else {
        RunStartsBy(obs, persistence, j, k - 1);
        assert obs[..k] == obs[..(k - 1) + 1];
        assert FiresAt(obs, persistence, k);
      }
    }
  }

  /** Sightings at 0.0, 0.1, ..., 0.8 seconds with a 0.7 s threshold fire once, at 0.7. */
  lemma SteadyRunFiresOnce()
    ensures Fires([Obs(true, true, 0.0), Obs(true, true, 0.1), Obs(true, true, 0.2),
                   Obs(true, true, 0.3), Obs(true, true, 0.4), Obs(true, true, 0.5),
                   Obs(true, true, 0.6), Obs(true, true, 0.7), Obs(true, true, 0.8)], 0.7)
      == [false, false, false, false, false, false, false, true, false]
  {
    var obs := [Obs(true, true, 0.0), Obs(true, true, 0.1), Obs(true, true, 0.2),
                Obs(true, true, 0.3), Obs(true, true, 0.4), Obs(true, true, 0.5),
                Obs(true, true, 0.6), Obs(true, true, 0.7), Obs(true, true, 0.8)];
    assert After(obs[..0], 0.7) == None;
    AfterPrefix(obs, 0.7, 0);
    AfterPrefix(obs, 0.7, 1);
    AfterPrefix(obs, 0.7, 2);
    AfterPrefix(obs, 0.7, 3);
    AfterPrefix(obs, 0.7, 4);
    AfterPrefix(obs, 0.7, 5);
    AfterPrefix(obs, 0.7, 6);
    AfterPrefix(obs, 0.7, 7);
    assert After(obs[..7], 0.7) == Some(0.0);
    assert After(obs[..8], 0.7) == None;
  }

  /** A miss at 0.4 s discards the run begun at 0.0 s; the event comes at 1.3 s, 0.8 s after the new run began at 0.5 s. */
  lemma GapResetsRun()
    ensures Fires([Obs(true, true, 0.0), Obs(true, true, 0.3), Obs(true, false, 0.4),
                   Obs(true, true, 0.5), Obs(true, true, 1.3)], 0.7)
      == [false, false, false, false, true]
  {
    var obs := [Obs(true, true, 0.0), Obs(true, true, 0.3), Obs(true, false, 0.4),
                Obs(true, true, 0.5), Obs(true, true, 1.3)];
    assert After(obs[..0], 0.7) == None;
    AfterPrefix(obs, 0.7, 0);
    AfterPrefix(obs, 0.7, 1);
    AfterPrefix(obs, 0.7, 2);
    AfterPrefix(obs, 0.7, 3);
    assert After(obs[..4], 0.7) == Some(0.5);
  }

  // ---------------------------------------------------------------------------
  // The frame counter (pipeline.py:116-122)

  /** How long the counter accumulates before it is reported and reset. */
  const FpsWindowS: real := 2.0

  /** Count the frame; once the window has elapsed, reset the count and restart the window now. */
  function CountFrame(frames: nat, lastPrint: real, now: real): (r: (nat, real))
    ensures r.0 == 0 <==> now - lastPrint >= FpsWindowS
    ensures r.0 != 0 ==> r == (frames + 1, lastPrint)
    ensures r.0 == 0 ==> r.1 == now
  {
    var counted := frames + 1;
    if now - lastPrint >= FpsWindowS then (0, now) else (counted, lastPrint)
  }

  /** Frames counted and window start after a sequence of iterations, from a count of 0 started at start. */
  function Counter(obs: seq<Obs>, start: real): (nat, real)
  {
    if |obs| == 0 then (0, start)
    else
      var (frames, lastPrint) := Counter(obs[..|obs| - 1], start);
      var o := obs[|obs| - 1];
      if o.ok then CountFrame(frames, lastPrint, o.now) else (frames, lastPrint)
  }

  /** The number of iterations whose read succeeded. */
  function Processed(obs: seq<Obs>): (n: nat)
    ensures n <= |obs|
  {
    if |obs| == 0 then 0
    else Processed(obs[..|obs| - 1]) + (if obs[|obs| - 1].ok then 1 else 0)
  }

  /**
   * Before the window first elapses the counter equals the number of
   * processed frames; the window start is always the start time or the clock
   * of a processed frame, and the count never exceeds the processed frames.
   */
  lemma {:induction false} CounterCountsProcessed(obs: seq<Obs>, start: real)
    ensures Counter(obs, start).0 <= Processed(obs)
    ensures (forall m | 0 <= m < |obs| :: obs[m].ok ==> obs[m].now - start < FpsWindowS) ==>
      Counter(obs, start) == (Processed(obs), start)
    ensures Counter(obs, start).1 == start ||
      exists m | 0 <= m < |obs| :: obs[m].ok && obs[m].now == Counter(obs, start).1
  {
    if |obs| > 0 {
      var pre := obs[..|obs| - 1];
      CounterCountsProcessed(pre, start);
      assert forall m | 0 <= m < |pre| :: pre[m] == obs[m];
    }
  }

  // ---------------------------------------------------------------------------
  // The loop state (pipeline.py:60-63) and one iteration (pipeline.py:68-122)

  class PipelineLoop {
    /** Minimum score of a kept detection. */
    const confidenceThr: real
    /** Seconds a cat must persist before an event. */
    const persistenceTimeS: real

    /** When the current run of sightings began, if one is active. */
    var catActiveSince: Option<real>
    /** Frames processed since the last FPS report. */
    var frames: nat
    /** Clock of the last FPS report. */
    var lastPrint: real

    constructor (confidenceThr: real, persistenceTimeS: real, startTime: real)
      ensures this.confidenceThr == confidenceThr && this.persistenceTimeS == persistenceTimeS
      ensures catActiveSince == None && frames == 0 && lastPrint == startTime
    {
      this.confidenceThr := confidenceThr;
      this.persistenceTimeS := persistenceTimeS;
      catActiveSince := None;
      frames := 0;
      lastPrint := startTime;
    }

    /**
     * One loop iteration. `ok` is the result of the frame read, `dets` the
     * detector's rows for the frame, `now` the clock after inference. Returns
     * whether an event (snapshot) is raised.
     */
    method Tick(ok: bool, dets: seq<Row>, now: real) returns (fired: bool)
      modifies this
      ensures !ok ==> !fired && catActiveSince == old(catActiveSince) &&
                      frames == old(frames) && lastPrint == old(lastPrint)
      ensures (catActiveSince, fired) ==
        Step(old(catActiveSince), Obs(ok, SawCat(dets, confidenceThr), now), persistenceTimeS)
      ensures ok ==> (frames, lastPrint) == CountFrame(old(frames), old(lastPrint), now)
    {
      fired := false;
      if !ok {
        return;
      }
      var kept := FilterCats(dets, confidenceThr);
      var sawCat := |kept| > 0;
      if sawCat {
        if catActiveSince.None? {
          catActiveSince := Some(now);
        }
        var elapsed := now - catActiveSince.value;
        if elapsed >= persistenceTimeS {
          fired := true;
          catActiveSince := None;
        }
      } else {
        catActiveSince := None;
      }
      frames := frames + 1;
      if now - lastPrint >= FpsWindowS {
        frames := 0;
        lastPrint := now;
      }
    }
  }
}
